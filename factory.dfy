/**
 * The generic construction of src/balancers/mod.rs: `load_balancer_factory`
 * and the fill loop of `create_and_fill_the_balancer`, driven by a server list
 * that has already been read from the configuration file.
 */
module Factory {
  import opened Wrappers
  import opened Addresses
  import opened Weights
  import opened RoundRobin
  import opened Balancer

  /** The slots a balancer holds once `servers` is inserted in order: every counter at 0. */
  function Filled(servers: seq<(SocketAddress, nat)>): (slots: seq<Slot>)
    ensures |slots| == |servers|
  {
    seq(|servers|, k requires 0 <= k < |servers| => Slot(servers[k].0, servers[k].1, 0))
  }

  /** Filling one more server appends its slot. */
  lemma FilledSnoc(servers: seq<(SocketAddress, nat)>, k: nat)
    requires k < |servers|
    ensures Filled(servers[..k + 1]) == Filled(servers[..k]) + [Slot(servers[k].0, servers[k].1, 0)]
  {
  }

  /** A freshly filled balancer is the state `At(slots, 0, 0)` of the schedule lemmas. */
  lemma FilledIsFresh(servers: seq<(SocketAddress, nat)>)
    requires 0 < |servers|
    ensures State(Filled(servers), 0) == At(Filled(servers), 0, 0)
  {
    var slots := Filled(servers);
    assert slots == At(slots, 0, 0).slots;
  }

  /**
   * `load_balancer_factory`: `T::new` with the error passed through unchanged,
   * so it succeeds exactly when the count is 1 to `MAX_SERVERS`.
   */
  method LoadBalancerFactory(serversNumber: nat) returns (r: Result<WeightedRoundRobinLB, BalancerError>)
    ensures r.Err? <==> ServersNumberError(serversNumber).Some?
    ensures r.Err? ==> ServersNumberError(serversNumber) == Some(r.error)
    ensures r.Ok? ==> fresh(r.value.Repr) && r.value.Valid()
    ensures r.Ok? ==> r.value.State() == State([], 0) && r.value.capacityHint == serversNumber
  {
    var t := WeightedRoundRobinLB.New(serversNumber);
    match t {
      case Ok(lb) => r := Ok(lb);
      case Err(e) => r := Err(e);
    }
  }

  /**
   * Insert `servers` in order into an empty balancer that is in `fresh`
   * storage; stops at the first refused insert, as the `panic!` does.
   */
  method InsertAll(balancer: WeightedRoundRobinLB, servers: seq<(SocketAddress, nat)>) returns (r: Result<(), BalancerError>)
    requires balancer.Valid() && balancer.State() == State([], 0)
    modifies balancer
    ensures balancer.Valid() && fresh(balancer.Repr - old(balancer.Repr))
    ensures r.Err? <==> |servers| > MAX_SERVERS
    ensures r.Err? ==> r.error == TooManyServers && balancer.State() == State(Filled(servers[..MAX_SERVERS]), 0)
    ensures r.Ok? ==> balancer.State() == State(Filled(servers), 0)
  {
    var i := 0;
    while i < |servers|
      invariant 0 <= i <= |servers| && i <= MAX_SERVERS
      invariant balancer.Valid() && fresh(balancer.Repr - old(balancer.Repr))
      invariant balancer.State() == State(Filled(servers[..i]), 0)
    {
      var (socketAddress, weight) := servers[i];
      var result := balancer.InsertSocketAddress(socketAddress, weight);
      if result.Err? {
        return Err(result.error);
      }
      FilledSnoc(servers, i);
      i := i + 1;
    }
    assert servers[..i] == servers;
    r := Ok(());
  }

  /**
   * `create_and_fill_the_balancer` after `configure`: the balancer is sized by
   * the list length, so an empty list is `ZeroOrNegativeServers` and more than
   * `MAX_SERVERS` entries are `TooManyServers`; otherwise every insert
   * succeeds and the balancer holds the list, in order, with cursor and
   * counters at 0.
   */
  method CreateAndFillTheBalancer(servers: seq<(SocketAddress, nat)>) returns (r: Result<WeightedRoundRobinLB, BalancerError>)
    ensures r.Err? <==> |servers| == 0 || |servers| > MAX_SERVERS
    ensures r.Err? ==> ServersNumberError(|servers|) == Some(r.error)
    ensures r.Ok? ==> fresh(r.value.Repr) && r.value.Valid()
    ensures r.Ok? ==> r.value.State() == State(Filled(servers), 0) && r.value.capacityHint == |servers|
  {
    var created := LoadBalancerFactory(|servers|);
    if created.Err? {
      return Err(created.error);
    }
    var balancer := created.value;
    var filled := InsertAll(balancer, servers);
    if filled.Err? {
      // the list fits, so no insert is refused
      assert false;
    }
    r := Ok(balancer);
  }

  /**
   * End to end: a balancer filled from a list of 1 to `MAX_SERVERS` servers
   * with positive weights serves, over its first `k` calls, the first `k`
   * positions of repeated rounds; each round serves server `i` `w_i` times in a
   * row, in list order, and the server at position `p` is `servers[p].0`.
   */
  lemma FilledSchedule(servers: seq<(SocketAddress, nat)>, k: nat, m: nat, i: nat)
    requires 0 < |servers| <= MAX_SERVERS && i < |servers|
    requires forall j :: 0 <= j < |servers| ==> servers[j].1 >= 1
    requires k <= m * TotalWeight(Filled(servers))
    ensures |Cycles(Filled(servers), m)| == m * TotalWeight(Filled(servers))
    ensures Run(State(Filled(servers), 0), k).0 == Cycles(Filled(servers), m)[..k]
    ensures Count(Cycle(Filled(servers)), i) == servers[i].1
    ensures Filled(servers)[i].address == servers[i].0
  {
    var slots := Filled(servers);
    FilledSchedulable(servers);
    FilledIsFresh(servers);
    Schedule(slots, k, m);
    CountCycle(slots, i);
  }

  /** Positive weights in the list make a balancer that never panics. */
  lemma FilledSchedulable(servers: seq<(SocketAddress, nat)>)
    requires 0 < |servers| <= MAX_SERVERS
    requires forall j :: 0 <= j < |servers| ==> servers[j].1 >= 1
    ensures Schedulable(Filled(servers))
  {
    var slots := Filled(servers);
    forall j | 0 <= j < |slots| ensures slots[j].weight >= 1 {
      assert slots[j].weight == servers[j].1;
    }
  }
}
