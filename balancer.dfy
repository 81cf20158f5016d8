/**
 * `WeightedRoundRobinLB`, in both of its layouts: src/load_balancer.rs and the
 * `LoadBalancer` implementation in
 * src/balancers/standard_weighted_load_balancer/load_balancer.rs. The two run
 * the same algorithm and differ only in the text of their error messages.
 */
module Balancer {
  import opened Wrappers
  import opened Addresses
  import opened Weights
  import opened RoundRobin

  /** The two errors `new` and `insert_socket_address` can return. */
  datatype BalancerError = TooManyServers | ZeroOrNegativeServers

  /** The error texts of src/load_balancer.rs. */
  function LegacyMessage(e: BalancerError): string {
    match e
    case TooManyServers => "Il numero di server supera i 256"
    case ZeroOrNegativeServers => "Il numero di server è 0 o un numero negativo"
  }

  /** The error texts of the `LoadBalancer` implementation. */
  function TraitMessage(e: BalancerError): string {
    match e
    case TooManyServers => "The number of servers is over 256"
    case ZeroOrNegativeServers => "The number of servers is 0 or a negative number"
  }

  /**
   * In each layout the text tells the two errors apart, as the tests that
   * compare an `Err` with a constant need, and no text is shared between the
   * layouts.
   */
  lemma MessagesIdentifyError(e1: BalancerError, e2: BalancerError)
    ensures LegacyMessage(e1) == LegacyMessage(e2) <==> e1 == e2
    ensures TraitMessage(e1) == TraitMessage(e2) <==> e1 == e2
    ensures LegacyMessage(e1) != TraitMessage(e2)
  {
  }

  /**
   * The range check of `new`: the upper bound is tested before the zero test,
   * so only a count of 1 to `MAX_SERVERS` is accepted.
   */
  function ServersNumberError(serversNumber: nat): (e: Option<BalancerError>)
    ensures e == None <==> 1 <= serversNumber <= MAX_SERVERS
    ensures e == Some(TooManyServers) <==> serversNumber > MAX_SERVERS
    ensures e == Some(ZeroOrNegativeServers) <==> serversNumber == 0
  {
    if serversNumber > MAX_SERVERS then Some(TooManyServers)
    else if serversNumber == 0 then Some(ZeroOrNegativeServers)
    else None
  }

  /**
   * The balancer: a vector of `Weight` slots, in insertion order, and the
   * shared cursor `index`. The capacity given to `new` is only a hint to the
   * allocator and is kept for reference.
   */
  class WeightedRoundRobinLB {
    var addresses: seq<Weight>
    var index: nat
    const capacityHint: nat
    ghost var Repr: set<object>

    /** The slots are distinct objects owned by the balancer, and their states satisfy `Inv`. */
    ghost predicate Valid()
      reads this, Repr
    {
      && this in Repr
      && (forall i :: 0 <= i < |addresses| ==> addresses[i] in Repr)
      && (forall i, j :: 0 <= i < j < |addresses| ==> addresses[i] != addresses[j])
      && Inv(State())
    }

    /** The slot states in insertion order. */
    function Slots(): (s: seq<Slot>)
      reads this, addresses
      ensures |s| == |addresses|
    {
      seq(|addresses|, i reads this, addresses requires 0 <= i < |addresses| => addresses[i].View())
    }

    /** The abstract balancer state that `NextSlot` acts on. */
    function State(): State
      reads this, addresses
    {
      RoundRobin.State(Slots(), index)
    }

    /** The struct literal of `new`: no slots and the cursor at 0. */
    constructor (capacityHint: nat)
      ensures Valid() && fresh(Repr)
      ensures State() == RoundRobin.State([], 0) && this.capacityHint == capacityHint
    {
      addresses := [];
      index := 0;
      this.capacityHint := capacityHint;
      Repr := {this};
    }

    /**
     * `new`: more than `MAX_SERVERS` is `TooManyServers`, then 0 is
     * `ZeroOrNegativeServers`; otherwise an empty balancer with cursor 0.
     */
    static method New(serversNumber: nat) returns (r: Result<WeightedRoundRobinLB, BalancerError>)
      ensures r.Err? <==> ServersNumberError(serversNumber).Some?
      ensures r.Err? ==> ServersNumberError(serversNumber) == Some(r.error)
      ensures r.Ok? ==> fresh(r.value.Repr) && r.value.Valid()
      ensures r.Ok? ==> r.value.State() == RoundRobin.State([], 0) && r.value.capacityHint == serversNumber
    {
      var e := ServersNumberError(serversNumber);
      if e.Some? {
        return Err(e.value);
      }
      var lb := new WeightedRoundRobinLB(serversNumber);
      return Ok(lb);
    }

    /**
     * `insert_socket_address`: refused with `TooManyServers` when
     * `MAX_SERVERS` slots are already there, and nothing changes; otherwise a
     * slot with counter 0 is appended and the cursor stays where it was.
     */
    method InsertSocketAddress(socketAddress: SocketAddress, weight: nat) returns (r: Result<(), BalancerError>)
      requires Valid()
      modifies this
      ensures Valid() && fresh(Repr - old(Repr))
      ensures r.Err? <==> old(|addresses|) == MAX_SERVERS
      ensures r.Err? ==> r.error == TooManyServers
      ensures State() == if r.Ok? then old(State()).(slots := old(Slots()) + [Slot(socketAddress, weight, 0)])
                         else old(State())
      ensures NOfServers() == if r.Ok? then old(NOfServers()) + 1 else old(NOfServers())
    {
      if |addresses| + 1 > MAX_SERVERS {
        return Err(TooManyServers);
      }
      ghost var before := Slots();
      var w := new Weight(socketAddress, weight);
      addresses := addresses + [w];
      Repr := Repr + {w};
      assert Slots() == before + [Slot(socketAddress, weight, 0)];
      r := Ok(());
    }

    /**
     * `next_server`, with the cursor lock held throughout: the current slot
     * serves if it can; otherwise it has been reset, the cursor moves to
     * `(index + 1) % len` and that slot serves. The caller must not reach the
     * two panics: an empty vector and an exhausted slot after the move.
     */
    method NextServer() returns (a: SocketAddress)
      requires Valid() && Servable(State())
      modifies Repr
      ensures Valid() && Repr == old(Repr)
      ensures State() == NextSlot(old(State())).1
      ensures a == Slots()[NextSlot(old(State())).0].address
    {
      ghost var st := State();
      ghost var i := index;
      var option := addresses[index].NextRequest();
      ghost var mid := st.slots[i := addresses[i].View()];
      assert Slots() == mid;
      match option {
        case Some(socketAddress) =>
          return socketAddress;
        case None =>
          index := (index + 1) % |addresses|;
          var second := addresses[index].NextRequest();
          assert Slots() == mid[index := addresses[index].View()];
          a := second.value;
      }
    }

    /** `n_of_servers`: the number of slots. */
    function NOfServers(): (n: nat)
      reads this
      ensures n == |addresses|
    {
      |addresses|
    }
  }
}
