/**
 * The fixture balancer of the older layout (src/app.rs): two local servers,
 * on ports 7878 and 7879, with weights 1 and 3.
 */
module App {
  import opened Wrappers
  import opened Addresses
  import opened Weights
  import opened RoundRobin
  import opened Balancer
  import opened Factory
  import AddressExamples

  const FIRST := SocketAddress("127.0.0.1", "7878")
  const SECOND := SocketAddress("127.0.0.1", "7879")

  /** The slots of the fixture, in insertion order. */
  const FIXTURE := [Slot(FIRST, 1, 0), Slot(SECOND, 3, 0)]

  /** The two ports of the fixture are `i32`s below 65536. */
  lemma FixturePorts()
    ensures IsPortNumber("7878") && IsPortNumber("7879")
  {
    assert Decimal(7) == "7" && Decimal(78) == "78" && Decimal(787) == "787" && Decimal(7878) == "7878";
    assert Decimal(7879) == "7879";
    ParseDecimal(7878);
    ParseDecimal(7879);
  }

  /** Both addresses of the fixture are accepted, so its `unwrap`s never panic. */
  lemma FixtureAddresses()
    ensures New("127.0.0.1", "7878") == Ok(FIRST)
    ensures New("127.0.0.1", "7879") == Ok(SECOND)
  {
    AddressExamples.GoodQuads();
    FixturePorts();
    NewAccepts("127.0.0.1", "7878");
    NewAccepts("127.0.0.1", "7879");
  }

  /** The two `SocketAddress::new(..).unwrap()` calls of `get_load_balancer`. */
  method FixtureSocketAddresses() returns (first: SocketAddress, second: SocketAddress)
    ensures first == FIRST && second == SECOND
  {
    FixtureAddresses();
    var r1 := New("127.0.0.1", "7878");
    var r2 := New("127.0.0.1", "7879");
    first, second := r1.value, r2.value;
  }

  /**
   * `get_load_balancer`: `new(2)` and two inserts, every `unwrap` on an `Ok`.
   * The balancer holds the two servers in order with cursor and counters at 0.
   */
  method GetLoadBalancer() returns (balancer: WeightedRoundRobinLB)
    ensures fresh(balancer.Repr) && balancer.Valid()
    ensures balancer.State() == State(FIXTURE, 0) && balancer.capacityHint == 2
  {
    var created := WeightedRoundRobinLB.New(2);
    if created.Err? {
      assert false;
      return;
    }
    balancer := created.value;
    var first, second := FixtureSocketAddresses();
    var r1 := balancer.InsertSocketAddress(first, 1);
    if r1.Err? {
      assert false;
    }
    var r2 := balancer.InsertSocketAddress(second, 3);
    if r2.Err? {
      assert false;
    }
    assert balancer.State().slots == [] + [Slot(FIRST, 1, 0)] + [Slot(SECOND, 3, 0)];
  }

  /** One round of the fixture: slot 0 once, then slot 1 three times. */
  lemma FixtureRound()
    ensures TotalWeight(FIXTURE) == 4 && Cycle(FIXTURE) == [0, 1, 1, 1]
  {
    assert SumFrom(FIXTURE, 2) == 0 && CycleFrom(FIXTURE, 2) == [];
    assert Repeat(1, 3) == [1, 1, 1] && Repeat(0, 1) == [0];
    assert CycleFrom(FIXTURE, 1) == Repeat(1, 3) + CycleFrom(FIXTURE, 2);
    assert CycleFrom(FIXTURE, 0) == Repeat(0, 1) + CycleFrom(FIXTURE, 1);
    assert SumFrom(FIXTURE, 1) == 3 + SumFrom(FIXTURE, 2);
    assert SumFrom(FIXTURE, 0) == 1 + SumFrom(FIXTURE, 1);
  }

  /**
   * The fixture serves 7878 once, then 7879 three times, and again: the
   * first eight calls of `next_server` go to the slots 0, 1, 1, 1, 0, 1, 1, 1,
   * that is to the addresses 7878, 7879, 7879, 7879, 7878, 7879, 7879, 7879.
   */
  lemma FixtureSchedule()
    ensures Run(State(FIXTURE, 0), 8).0 == [0, 1, 1, 1, 0, 1, 1, 1]
    ensures FixtureServes(Run(State(FIXTURE, 0), 8).0, [FIRST, SECOND, SECOND, SECOND, FIRST, SECOND, SECOND, SECOND])
  {
    var servers := [(FIRST, 1), (SECOND, 3)];
    assert Filled(servers) == FIXTURE;
    FixtureRound();
    FilledSchedule(servers, 8, 2, 0);
    assert Cycles(FIXTURE, 2) == [] + Cycle(FIXTURE) + Cycle(FIXTURE);
    FixturePicks(Run(State(FIXTURE, 0), 8).0);
  }

  /** The slot picks of a run on the fixture lead, in order, to `addresses`. */
  predicate FixtureServes(picks: seq<nat>, addresses: seq<SocketAddress>) {
    && |picks| == |addresses|
    && forall p :: 0 <= p < |picks| ==> picks[p] < |FIXTURE| && FIXTURE[picks[p]].address == addresses[p]
  }

  /** The picks 0, 1, 1, 1, 0, 1, 1, 1 name 7878 once, 7879 three times, twice over. */
  lemma FixturePicks(picks: seq<nat>)
    requires picks == [0, 1, 1, 1, 0, 1, 1, 1]
    ensures FixtureServes(picks, [FIRST, SECOND, SECOND, SECOND, FIRST, SECOND, SECOND, SECOND])
  {
  }
}
