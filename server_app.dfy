/**
 * The balancer set-up of `Server` (src/server/app.rs): `fill_the_balancer`
 * sizes the balancer with the fixed hint 5 instead of the list length.
 */
module ServerApp {
  import opened Wrappers
  import opened Addresses
  import opened RoundRobin
  import opened Balancer
  import opened Factory

  /** The capacity hint `fill_the_balancer` passes to the factory. */
  const CAPACITY_HINT: nat := 5

  /**
   * `fill_the_balancer` after `configure`: the factory call with 5 always
   * succeeds, so the only refusal is a list of more than `MAX_SERVERS`
   * entries, reported as `TooManyServers` (the `panic!`). An empty list is
   * accepted and gives an empty balancer.
   */
  method FillTheBalancer(servers: seq<(SocketAddress, nat)>) returns (r: Result<WeightedRoundRobinLB, BalancerError>)
    ensures r.Err? <==> |servers| > MAX_SERVERS
    ensures r.Err? ==> r.error == TooManyServers
    ensures r.Ok? ==> fresh(r.value.Repr) && r.value.Valid()
    ensures r.Ok? ==> r.value.State() == State(Filled(servers), 0) && r.value.capacityHint == CAPACITY_HINT
  {
    var created := LoadBalancerFactory(CAPACITY_HINT);
    if created.Err? {
      // 5 is within 1 to MAX_SERVERS
      assert false;
    }
    var balancer := created.value;
    var filled := InsertAll(balancer, servers);
    if filled.Err? {
      return Err(filled.error);
    }
    r := Ok(balancer);
  }
}
