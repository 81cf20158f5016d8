/**
 * The selection rule of `WeightedRoundRobinLB::next_server` as a function on
 * balancer states, with its invariant and the weighted round-robin schedule it
 * produces. Both copies of the balancer (src/load_balancer.rs and
 * src/balancers/standard_weighted_load_balancer/load_balancer.rs) follow it.
 */
module RoundRobin {
  import opened Wrappers
  import opened Addresses
  import opened Weights

  /** `MAX_SERVERS`. */
  const MAX_SERVERS: nat := 256

  /** The slots in insertion order and the shared cursor `index`. */
  datatype State = State(slots: seq<Slot>, index: nat)

  /**
   * The balancer invariant: at most `MAX_SERVERS` slots, the cursor on a slot
   * (0 while there is none), every counter within its weight, and every slot
   * other than the current one at counter 0.
   */
  predicate Inv(st: State) {
    && |st.slots| <= MAX_SERVERS
    && (if |st.slots| == 0 then st.index == 0 else st.index < |st.slots|)
    && (forall i :: 0 <= i < |st.slots| ==> Bounded(st.slots[i]))
    && (forall i :: 0 <= i < |st.slots| && i != st.index ==> st.slots[i].counter == 0)
  }

  /** Two states with the same servers in the same order (only counters and cursor may differ). */
  predicate SameServers(a: State, b: State) {
    && |a.slots| == |b.slots|
    && forall i :: 0 <= i < |a.slots| ==> a.slots[i].address == b.slots[i].address && a.slots[i].weight == b.slots[i].weight
  }

  /**
   * `next_server` neither indexes an empty vector nor panics in
   * `expect(INDEX_PROBLEM)`: when the current slot is exhausted, the slot
   * the cursor moves to yields.
   */
  predicate Servable(st: State) {
    && 0 < |st.slots| && st.index < |st.slots|
    && var first := Request(st.slots[st.index]);
       first.0.Some? || Request(st.slots[st.index := first.1][(st.index + 1) % |st.slots|]).0.Some?
  }

  /**
   * `next_server`: ask the current slot; if it is exhausted (and so reset),
   * move the cursor to `(index + 1) % len` and ask that slot. The result is the
   * position of the slot whose address is returned, and the new state.
   */
  function NextSlot(st: State): (r: (nat, State))
    requires Servable(st)
    ensures r.0 < |st.slots| && r.1.index == r.0
    ensures SameServers(st, r.1)
    ensures r.1.slots[r.0].counter >= 1
    ensures Inv(st) ==> Inv(r.1)
  {
    var n := |st.slots|;
    var first := Request(st.slots[st.index]);
    var slots := st.slots[st.index := first.1];
    if first.0.Some? then (st.index, State(slots, st.index))
    else
      var j := (st.index + 1) % n;
      (j, State(slots[j := Request(slots[j]).1], j))
  }

  /**
   * Under the invariant, `next_server` panics exactly when the current slot is
   * exhausted and the slot after it (itself, when there is only one) has weight 0.
   */
  lemma ServableIff(st: State)
    requires Inv(st) && 0 < |st.slots|
    ensures Servable(st) <==>
      (st.slots[st.index].counter == st.slots[st.index].weight ==> st.slots[(st.index + 1) % |st.slots|].weight > 0)
  {
    var j := (st.index + 1) % |st.slots|;
    if j != st.index {
      assert st.slots[j].counter == 0;
    }
  }

  /**
   * The two behaviours of `next_server` under the invariant: a yielding current
   * slot is served again with the cursor unchanged; an exhausted one is reset
   * and the next slot, at counter 0 until now, is served once.
   */
  lemma NextSlotCases(st: State)
    requires Inv(st) && Servable(st)
    ensures var i := st.index;
            var s := st.slots[i];
            var j := (i + 1) % |st.slots|;
            if s.counter < s.weight then
              NextSlot(st) == (i, State(st.slots[i := s.(counter := s.counter + 1)], i))
            else
              NextSlot(st) == (j, State(st.slots[i := s.(counter := 0)][j := st.slots[j].(counter := 1)], j))
  {
    var i := st.index;
    var j := (i + 1) % |st.slots|;
    if st.slots[i].counter == st.slots[i].weight && j != i {
      assert st.slots[j].counter == 0;
    }
  }

  // ---------------------------------------------------------------------
  // The schedule from a freshly filled balancer

  /** Every weight is at least 1. */
  predicate PositiveWeights(slots: seq<Slot>) {
    forall i :: 0 <= i < |slots| ==> slots[i].weight >= 1
  }

  /** A state from which every sequence of calls is served. */
  predicate Ready(st: State) {
    Inv(st) && 0 < |st.slots| && PositiveWeights(st.slots)
  }

  lemma ReadyIsServable(st: State)
    requires Ready(st)
    ensures Servable(st)
  {
    ServableIff(st);
  }

  /**
   * `k` calls of `next_server`: the positions served, in order, and the final
   * state. A call that would panic ends the run early.
   */
  function Run(st: State, k: nat): (seq<nat>, State)
    decreases k
  {
    if k == 0 || !Servable(st) then ([], st)
    else
      var first := NextSlot(st);
      var rest := Run(first.1, k - 1);
      ([first.0] + rest.0, rest.1)
  }

  /** From a ready state no call panics: `k` calls serve `k` times and leave a ready state with the same servers. */
  lemma {:induction false} RunReady(st: State, k: nat)
    requires Ready(st)
    ensures |Run(st, k).0| == k && Ready(Run(st, k).1) && SameServers(st, Run(st, k).1)
    decreases k
  {
    if k > 0 {
      ReadyIsServable(st);
      RunReady(NextSlot(st).1, k - 1);
    }
  }

  /** The state whose cursor is at `i` with counter `c` there and 0 elsewhere, over the servers of `base`. */
  function At(base: seq<Slot>, i: nat, c: nat): (st: State)
    requires i < |base|
    ensures |st.slots| == |base| && st.index == i
  {
    State(seq(|base|, k requires 0 <= k < |base| => base[k].(counter := if k == i then c else 0)), i)
  }

  /** The positions of slots `j..` repeated by weight: `j` for `w_j` calls, then `j + 1`, and so on. */
  function CycleFrom(base: seq<Slot>, j: nat): (r: seq<nat>)
    decreases |base| - j
  {
    if j >= |base| then [] else Repeat(j, base[j].weight) + CycleFrom(base, j + 1)
  }

  /** One full round of the schedule: slot 0 `w_0` times, slot 1 `w_1` times, and so on. */
  function Cycle(base: seq<Slot>): seq<nat> {
    CycleFrom(base, 0)
  }

  /** `m` rounds in a row. */
  function Cycles(base: seq<Slot>, m: nat): seq<nat> {
    if m == 0 then [] else Cycles(base, m - 1) + Cycle(base)
  }

  /** The number of times `x` occurs in `s`. */
  function Count(s: seq<nat>, x: nat): nat {
    if s == [] then 0 else (if s[0] == x then 1 else 0) + Count(s[1..], x)
  }

  /** The total weight of slots `j..`. */
  function SumFrom(base: seq<Slot>, j: nat): nat
    decreases |base| - j
  {
    if j >= |base| then 0 else base[j].weight + SumFrom(base, j + 1)
  }

  /** The length of one round: the sum of all weights. */
  function TotalWeight(base: seq<Slot>): nat {
    SumFrom(base, 0)
  }

  /** Servers that a balancer can serve for ever: at least one, at most `MAX_SERVERS`, every weight positive. */
  predicate Schedulable(base: seq<Slot>) {
    0 < |base| <= MAX_SERVERS && PositiveWeights(base)
  }

  /**
   * Under the invariant a balancer state is fixed by its servers, its cursor
   * and the counter of the current slot. `StepAt` is `next_server` on that
   * pair: count one more on the current slot, or move to the next slot and
   * count one there.
   */
  function StepAt(base: seq<Slot>, i: nat, c: nat): (r: (nat, nat))
    requires i < |base|
    ensures r.0 < |base|
  {
    if c < base[i].weight then (i, c + 1) else (Succ(base, i), 1)
  }

  /** The slot after `i`, wrapping from the last to the first: `(i + 1) % len` without the remainder. */
  function Succ(base: seq<Slot>, i: nat): (j: nat)
    requires i < |base|
    ensures j < |base|
  {
    if i + 1 < |base| then i + 1 else 0
  }

  /** `Succ` is the cursor move of `next_server`. */
  lemma SuccIsMod(base: seq<Slot>, i: nat)
    requires i < |base|
    ensures Succ(base, i) == (i + 1) % |base|
  {
  }

  /** `k` calls on the pair view: the positions served and the final cursor and counter. */
  function Walk(base: seq<Slot>, i: nat, c: nat, k: nat): (r: (seq<nat>, nat, nat))
    requires i < |base|
    ensures r.1 < |base| && |r.0| == k
    decreases k
  {
    if k == 0 then ([], i, c)
    else
      var next := StepAt(base, i, c);
      var rest := Walk(base, next.0, next.1, k - 1);
      ([next.0] + rest.0, rest.1, rest.2)
  }

  // ---------------------------------------------------------------------
  // Lemmas: the schedule

  /** A state of the shape `At` is ready whenever its counter is within the weight. */
  lemma AtReady(base: seq<Slot>, i: nat, c: nat)
    requires Schedulable(base) && i < |base| && c <= base[i].weight
    ensures Ready(At(base, i, c))
  {
  }

  /** `next_server` on a state of the shape `At` is `StepAt` on its cursor and counter. */
  lemma NextSlotAt(base: seq<Slot>, i: nat, c: nat)
    requires Schedulable(base) && i < |base| && c <= base[i].weight
    ensures Servable(At(base, i, c))
    ensures var next := StepAt(base, i, c);
            next.1 <= base[next.0].weight && NextSlot(At(base, i, c)) == (next.0, At(base, next.0, next.1))
  {
    var st := At(base, i, c);
    var next := StepAt(base, i, c);
    AtReady(base, i, c);
    ReadyIsServable(st);
    NextSlotCases(st);
    SuccIsMod(base, i);
    var j := Succ(base, i);
    var slots := if c < base[i].weight then st.slots[i := st.slots[i].(counter := c + 1)]
                 else st.slots[i := st.slots[i].(counter := 0)][j := st.slots[j].(counter := 1)];
    forall k | 0 <= k < |base| ensures slots[k] == At(base, next.0, next.1).slots[k] {
    }
    assert slots == At(base, next.0, next.1).slots;
  }

  /** `k` calls of `next_server` from a state of the shape `At` follow `Walk`. */
  lemma {:induction false} RunAt(base: seq<Slot>, i: nat, c: nat, k: nat)
    requires Schedulable(base) && i < |base| && c <= base[i].weight
    ensures var w := Walk(base, i, c, k); Run(At(base, i, c), k) == (w.0, At(base, w.1, w.2))
    decreases k
  {
    if k > 0 {
      NextSlotAt(base, i, c);
      var next := StepAt(base, i, c);
      RunAt(base, next.0, next.1, k - 1);
    }
  }

  /** `a` calls followed by `b` calls are `a + b` calls. */
  lemma {:induction false} WalkConcat(base: seq<Slot>, i: nat, c: nat, a: nat, b: nat)
    requires i < |base|
    ensures var first := Walk(base, i, c, a);
            var second := Walk(base, first.1, first.2, b);
            Walk(base, i, c, a + b) == (first.0 + second.0, second.1, second.2)
    decreases a
  {
    if a > 0 {
      var next := StepAt(base, i, c);
      WalkConcat(base, next.0, next.1, a - 1, b);
      assert a + b - 1 == (a - 1) + b;
      var rest := Walk(base, next.0, next.1, a - 1);
      var x, y := rest.0, Walk(base, rest.1, rest.2, b).0;
      assert [next.0] + (x + y) == ([next.0] + x) + y;
    } else {
      var second := Walk(base, i, c, b);
      assert Walk(base, i, c, a).0 + second.0 == [] + second.0 == second.0;
    }
  }

  /** One more `x` in front of a run of `x`. */
  lemma RepeatCons<T>(x: T, n: nat)
    requires n >= 1
    ensures [x] + Repeat(x, n - 1) == Repeat(x, n)
  {
  }

  /** While the current slot has weight left, it is served again without moving the cursor. */
  lemma {:induction false} WalkBurst(base: seq<Slot>, i: nat, c: nat)
    requires i < |base| && c <= base[i].weight
    ensures Walk(base, i, c, base[i].weight - c) == (Repeat(i, base[i].weight - c), i, base[i].weight)
    decreases base[i].weight - c
  {
    if c < base[i].weight {
      WalkBurst(base, i, c + 1);
      RepeatCons(i, base[i].weight - c);
    }
  }

  /** Once slot `i` is used up, the next `w_j` calls serve the slot `j` after it and use it up. */
  lemma WalkNextSlot(base: seq<Slot>, i: nat)
    requires Schedulable(base) && i < |base|
    ensures var j := Succ(base, i);
            Walk(base, i, base[i].weight, base[j].weight) == (Repeat(j, base[j].weight), j, base[j].weight)
  {
    var j := Succ(base, i);
    var w := base[j].weight;
    var first := Walk(base, i, base[i].weight, 1);
    assert first == ([j] + Walk(base, j, 1, 0).0, j, 1);
    assert first.0 == [j];
    WalkBurst(base, j, 1);
    var second := Walk(base, j, 1, w - 1);
    assert second == (Repeat(j, w - 1), j, w);
    WalkConcat(base, i, base[i].weight, 1, w - 1);
    assert 1 + (w - 1) == w;
    RepeatCons(j, w);
  }

  /** From slot `j - 1` used up, the rest of the round serves slots `j..` by weight and ends on the last slot used up. */
  lemma {:induction false} WalkCycleFrom(base: seq<Slot>, j: nat)
    requires Schedulable(base) && 1 <= j <= |base|
    ensures Walk(base, j - 1, base[j - 1].weight, SumFrom(base, j)) == (CycleFrom(base, j), |base| - 1, base[|base| - 1].weight)
    decreases |base| - j
  {
    if j < |base| {
      assert Succ(base, j - 1) == j;
      WalkNextSlot(base, j - 1);
      WalkCycleFrom(base, j + 1);
      WalkConcat(base, j - 1, base[j - 1].weight, base[j].weight, SumFrom(base, j + 1));
      assert SumFrom(base, j) == base[j].weight + SumFrom(base, j + 1);
      assert CycleFrom(base, j) == Repeat(j, base[j].weight) + CycleFrom(base, j + 1);
    } else {
      assert SumFrom(base, j) == 0 && CycleFrom(base, j) == [];
    }
  }

  /** A round that starts on the last slot used up wraps to slot 0 and ends where it started. */
  lemma WalkWrap(base: seq<Slot>)
    requires Schedulable(base)
    ensures var n := |base|;
            Walk(base, n - 1, base[n - 1].weight, TotalWeight(base)) == (Cycle(base), n - 1, base[n - 1].weight)
  {
    var n := |base|;
    assert Succ(base, n - 1) == 0;
    WalkNextSlot(base, n - 1);
    WalkCycleFrom(base, 1);
    WalkConcat(base, n - 1, base[n - 1].weight, base[0].weight, SumFrom(base, 1));
  }

  /** A fresh balancer serves one full round and ends on the last slot used up. */
  lemma WalkFirst(base: seq<Slot>)
    requires Schedulable(base)
    ensures var n := |base|;
            Walk(base, 0, 0, TotalWeight(base)) == (Cycle(base), n - 1, base[n - 1].weight)
  {
    assert TotalWeight(base) == base[0].weight + SumFrom(base, 1);
    assert Cycle(base) == Repeat(0, base[0].weight) + CycleFrom(base, 1);
    WalkBurst(base, 0, 0);
    WalkCycleFrom(base, 1);
    WalkConcat(base, 0, 0, base[0].weight, SumFrom(base, 1));
  }

  /** `m >= 1` rounds from a fresh balancer. */
  lemma {:induction false} WalkCycles(base: seq<Slot>, m: nat)
    requires Schedulable(base) && m >= 1
    ensures var n := |base|;
            Walk(base, 0, 0, m * TotalWeight(base)) == (Cycles(base, m), n - 1, base[n - 1].weight)
  {
    var w := TotalWeight(base);
    if m == 1 {
      WalkFirst(base);
      assert m * w == w;
      assert Cycles(base, m) == Cycles(base, 0) + Cycle(base) == [] + Cycle(base) == Cycle(base);
    } else {
      WalkCycles(base, m - 1);
      assert m * w == (m - 1) * w + w;
      WalkConcat(base, 0, 0, (m - 1) * w, w);
      WalkWrap(base);
    }
  }

  /**
   * The weighted round-robin schedule: from a fresh balancer (cursor 0, every
   * counter 0), `m` rounds of calls to `next_server` serve slot 0 `w_0` times,
   * then slot 1 `w_1` times, and so on, `m` times over.
   */
  lemma RunCycles(base: seq<Slot>, m: nat)
    requires Schedulable(base)
    ensures Run(At(base, 0, 0), m * TotalWeight(base)).0 == Cycles(base, m)
  {
    RunAt(base, 0, 0, m * TotalWeight(base));
    if m >= 1 {
      WalkCycles(base, m);
    }
  }

  // ---------------------------------------------------------------------
  // Lemmas: how often each slot is served

  lemma {:induction false} CountConcat(a: seq<nat>, b: seq<nat>, x: nat)
    ensures Count(a + b, x) == Count(a, x) + Count(b, x)
  {
    if a != [] {
      CountConcat(a[1..], b, x);
      assert (a + b)[0] == a[0];
      assert (a + b)[1..] == a[1..] + b;
    } else {
      assert a + b == b;
    }
  }

  lemma {:induction false} CountRepeat(j: nat, w: nat, x: nat)
    ensures Count(Repeat(j, w), x) == if j == x then w else 0
  {
    if w > 0 {
      CountRepeat(j, w - 1, x);
      assert Repeat(j, w)[1..] == Repeat(j, w - 1);
    }
  }

  lemma {:induction false} CountCycleFrom(base: seq<Slot>, j: nat, i: nat)
    requires i < |base|
    ensures Count(CycleFrom(base, j), i) == if j <= i then base[i].weight else 0
    ensures |CycleFrom(base, j)| == SumFrom(base, j)
    decreases |base| - j
  {
    if j < |base| {
      CountCycleFrom(base, j + 1, i);
      CountConcat(Repeat(j, base[j].weight), CycleFrom(base, j + 1), i);
      CountRepeat(j, base[j].weight, i);
    }
  }

  /** In one round slot `i` is served exactly `w_i` times, and the round is `TotalWeight` calls long. */
  lemma CountCycle(base: seq<Slot>, i: nat)
    requires i < |base|
    ensures Count(Cycle(base), i) == base[i].weight && |Cycle(base)| == TotalWeight(base)
  {
    CountCycleFrom(base, 0, i);
  }

  /** In `m` rounds slot `i` is served exactly `m * w_i` times. */
  lemma {:induction false} CountCycles(base: seq<Slot>, m: nat, i: nat)
    requires i < |base|
    ensures Count(Cycles(base, m), i) == m * base[i].weight
    ensures |Cycles(base, m)| == m * TotalWeight(base)
  {
    if m > 0 {
      CountCycles(base, m - 1, i);
      CountCycle(base, i);
      CountConcat(Cycles(base, m - 1), Cycle(base), i);
      assert m * base[i].weight == (m - 1) * base[i].weight + base[i].weight;
      assert m * TotalWeight(base) == (m - 1) * TotalWeight(base) + TotalWeight(base);
    }
  }

  /** A positive total weight: a round is never empty. */
  lemma {:induction false} SumFromPositive(base: seq<Slot>, j: nat)
    requires PositiveWeights(base) && j < |base|
    ensures SumFrom(base, j) >= 1
  {
  }

  /** `m` rounds are also one round followed by `m - 1` rounds. */
  lemma {:induction false} CyclesCons(base: seq<Slot>, m: nat)
    requires m >= 1
    ensures Cycles(base, m) == Cycle(base) + Cycles(base, m - 1)
  {
    if m > 1 {
      CyclesCons(base, m - 1);
      var c := Cycle(base);
      assert (c + Cycles(base, m - 2)) + c == c + (Cycles(base, m - 2) + c);
    }
  }

  /** The rounds repeat: position `t + W` is position `t`. */
  lemma Periodic(base: seq<Slot>, m: nat, t: nat)
    requires 0 < |base| && t + TotalWeight(base) < m * TotalWeight(base)
    ensures |Cycles(base, m)| == m * TotalWeight(base)
    ensures Cycles(base, m)[t + TotalWeight(base)] == Cycles(base, m)[t]
  {
    var w := TotalWeight(base);
    CountCycles(base, m, 0);
    CountCycles(base, m - 1, 0);
    CountCycle(base, 0);
    assert m * w == (m - 1) * w + w;
    CyclesCons(base, m);
    assert Cycles(base, m) == Cycles(base, m - 1) + Cycle(base);
  }

  /** `k` calls, at most `m` rounds long, are the first `k` positions of `m` rounds. */
  lemma Schedule(base: seq<Slot>, k: nat, m: nat)
    requires Schedulable(base) && k <= m * TotalWeight(base)
    ensures |Cycles(base, m)| == m * TotalWeight(base)
    ensures Run(At(base, 0, 0), k).0 == Cycles(base, m)[..k]
  {
    CountCycles(base, m, 0);
    var w := TotalWeight(base);
    RunAt(base, 0, 0, k);
    RunCycles(base, m);
    RunAt(base, 0, 0, m * w);
    WalkConcat(base, 0, 0, k, m * w - k);
    assert k + (m * w - k) == m * w;
  }

  /** The `W` calls after the first `s` serve each slot as often as one round does. */
  lemma {:induction false} WindowCount(base: seq<Slot>, m: nat, s: nat, i: nat)
    requires Schedulable(base) && i < |base| && s + TotalWeight(base) <= m * TotalWeight(base)
    ensures |Cycles(base, m)| == m * TotalWeight(base)
    ensures Count(Cycles(base, m)[s..s + TotalWeight(base)], i) == base[i].weight
  {
    var w := TotalWeight(base);
    var out := Cycles(base, m);
    CountCycles(base, m, i);
    if s == 0 {
      SumFromPositive(base, 0);
      assert m != 0;
      CountCycle(base, i);
      CyclesCons(base, m);
      assert out[..w] == Cycle(base);
    } else {
      SumFromPositive(base, 0);
      WindowCount(base, m, s - 1, i);
      Periodic(base, m, s - 1);
      WindowSlide(out, s - 1, w, i);
    }
  }

  /** Sliding a window one step along a sequence whose step-`w` neighbours agree keeps every count. */
  lemma WindowSlide(out: seq<nat>, s: nat, w: nat, i: nat)
    requires 1 <= w && s + w < |out| && out[s + w] == out[s]
    ensures Count(out[s + 1..s + 1 + w], i) == Count(out[s..s + w], i)
  {
    var middle := out[s + 1..s + w];
    assert out[s..s + w] == [out[s]] + middle;
    assert out[s + 1..s + 1 + w] == middle + [out[s + w]];
    CountConcat([out[s]], middle, i);
    CountConcat(middle, [out[s + w]], i);
  }

  /**
   * Fairness: any `W` consecutive calls from a fresh balancer, wherever they
   * start, serve slot `i` exactly `w_i` times.
   */
  lemma Fairness(base: seq<Slot>, s: nat, i: nat)
    requires Schedulable(base) && i < |base|
    ensures var w := TotalWeight(base);
            |Run(At(base, 0, 0), s + w).0| == s + w &&
            Count(Run(At(base, 0, 0), s + w).0[s..], i) == base[i].weight
  {
    var w := TotalWeight(base);
    SumFromPositive(base, 0);
    var m := s + 1;
    assert s + w <= m * w by {
      assert m * w == s * w + w;
      assert s * w >= s;
    }
    Schedule(base, s + w, m);
    WindowCount(base, m, s, i);
    CountCycles(base, m, i);
    var out := Cycles(base, m);
    assert out[..s + w][s..] == out[s..s + w];
  }
}
