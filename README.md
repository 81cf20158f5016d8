# Weighted round-robin TCP load balancer, modelled in Dafny

The system is a small TCP reverse proxy. Each accepted connection goes to a backend chosen by a weighted round-robin balancer. The proxy reads the client's request into a byte vector that it grows until a read comes back short, forwards the request to the backend, and relays the backend's reply. This project models the logic inside that plumbing and proves its properties. It has six parts:

- **`Weights`** (`weights.dfy`) — the per-server slot `Weight`: a fixed address, a fixed weight and a request counter. `next_request` either advances the counter or resets it.
- **`RoundRobin`** (`round_robin.dfy`) — the reference specification of `next_server` on the state (slots, cursor). It covers:
  - the invariant that every slot other than the current one has counter 0;
  - the condition under which a call cannot panic;
  - the exact output schedule (slot 0 `w0` times, then slot 1 `w1` times, …, cyclically);
  - fairness over every window of `sum(w)` calls.
- **`Balancer`** (`balancer.dfy`) — the class `WeightedRoundRobinLB` with `new`, `insert_socket_address`, `next_server` and `n_of_servers`. Both copies of the source (the old layout and the `LoadBalancer` trait layout) run the same algorithm. One class models both, and only the error texts differ.
- **`Factory`**, **`ServerApp`**, **`App`** (`factory.dfy`, `server_app.dfy`, `app.dfy`) — the code that builds and fills a balancer:
  - `load_balancer_factory` and `create_and_fill_the_balancer`;
  - `fill_the_balancer` (capacity hint 5);
  - the `get_load_balancer` fixture (127.0.0.1:7878 with weight 1, then 127.0.0.1:7879 with weight 3), together with its schedule 0,1,1,1,0,1,1,1.
- **`Addresses`** (`addresses.dfy`, examples in `address_examples.dfy`) — `SocketAddress::new` and `get`. They cover:
  - the regular expression `^(\d{1,3}\.){3}\d{1,3}$`, written as a matcher;
  - `str::split(".")` and `str::parse::<i32>()`;
  - the octet and port bounds;
  - rendering as `ip:port`.

  The matcher is proved equivalent to "four dot-separated groups of one to three digits". `new` is proved to accept exactly the dotted quads with octets up to 255 and ports that parse as an `i32` below 65536.
- **`Framing`** and **`Proxy`** (`framing.dfy`, `framing_examples.dfy`, `proxy.dfy`) — `read_in_loop` and the buffer flow of `process`:
  - The socket is a finite script of read outcomes.
  - The `Vec<u8>` is a class over an `array<u8>` whose storage is replaced by a larger, zero-filled one when the buffer doubles.
  - The loop method is proved to follow the recursive specification `ReadLoop`.
  - `ReadLoop` is proved to have these properties:
    - each full read doubles the buffer;
    - earlier bytes are kept;
    - an error returns 0;
    - unless a read failed, the counted bytes are exactly the bytes the reads delivered, in order.

`wrappers.dfy` holds the `Option` and `Result` types.

## Model

| member | source | states |
|---|---|---|
| Weights.Weight.constructor | src/weight.rs:13-19 | the slot keeps the given address and weight and starts its counter at 0 |
| Weights.Weight.NextRequest | src/weight.rs:21-29 | returns `None` exactly when the counter equals the weight; the counter is then reset to 0, otherwise it rises by exactly 1; address and weight never change; the step agrees with `Request` |
| Weights.Request | src/weight.rs:21-29 | one call keeps address and weight, hands out only the slot's own address, and keeps `counter <= weight` |
| Weights.RequestsConcat | src/weight.rs:21-29 | `a + b` successive calls are `a` calls followed by `b` calls from the state they leave |
| Weights.Burst | src/weight.rs:21-29 | from a counter `c <= weight`, the next `weight - c` calls all return the address and leave the counter at the weight |
| Weights.Period | src/weight.rs:21-29 | from counter 0, `weight` calls return the address, the next returns `None`, and the slot is back at its start: the period is `weight + 1` |
| Weights.ZeroWeight | src/weight.rs:23-26 | a slot of weight 0 answers `None` to every call and never changes |
| Balancer.MessagesIdentifyError | src/load_balancer.rs:9-10 | within each layout the two error texts differ, so an `Err` compared with a constant names its error; no text is shared with the trait layout's constants at src/balancers/standard_weighted_load_balancer/load_balancer.rs:14-15 |
| Balancer.ServersNumberError | src/load_balancer.rs:28-34 | `new` accepts exactly 1 to 256 servers; more than 256 gives `TOO_MANY_SERVERS` (tested first), 0 gives `ZERO_OR_NEGATIVE_SERVERS`; the trait layout repeats it at src/balancers/standard_weighted_load_balancer/load_balancer.rs:44-50 |
| Balancer.WeightedRoundRobinLB.New | src/load_balancer.rs:28-39 | `new` fails exactly when the range check does, with its error (more than 256 before 0); otherwise it returns a fresh balancer with no slots, cursor 0 and the count kept as the capacity hint; the trait layout repeats it at src/balancers/standard_weighted_load_balancer/load_balancer.rs:44-55 |
| Balancer.WeightedRoundRobinLB.constructor | src/load_balancer.rs:35-38 | an accepted `new` starts with no slots, cursor 0 and the capacity hint recorded |
| Balancer.WeightedRoundRobinLB.InsertSocketAddress | src/load_balancer.rs:47-53 | fails with `TOO_MANY_SERVERS` exactly when 256 slots exist, and then nothing changes; otherwise appends a counter-0 slot at the end, keeps the earlier slots and the cursor, and raises `n_of_servers` by 1; the trait layout repeats it at src/balancers/standard_weighted_load_balancer/load_balancer.rs:57-63 |
| Balancer.WeightedRoundRobinLB.NextServer | src/load_balancer.rs:58-69 | when the call cannot panic, the new slots and cursor are those of `NextSlot` on the old state, the result is the chosen slot's address, and the balancer invariant is kept; the trait layout repeats it at src/balancers/standard_weighted_load_balancer/load_balancer.rs:65-76 |
| Balancer.WeightedRoundRobinLB.NOfServers | src/load_balancer.rs:72-74 | the number of slots; the trait layout repeats it at src/balancers/standard_weighted_load_balancer/load_balancer.rs:31-33 |
| RoundRobin.NextSlot | src/load_balancer.rs:58-69 | keeps every address and weight; the cursor lands on the returned slot, which has just counted a request; preserves the invariant (cursor in range, every other slot at counter 0, counters within weights) |
| RoundRobin.NextSlotCases | src/load_balancer.rs:60-66 | if the current slot yields it is returned and the cursor stays; otherwise its counter is reset, the cursor moves to `(index + 1) % len`, and the next slot is returned with counter 1 |
| RoundRobin.ServableIff | src/load_balancer.rs:65-66 | under the invariant, a call avoids the `INDEX_PROBLEM` panic exactly when the current slot still yields or the next slot has a positive weight |
| RoundRobin.ReadyIsServable | src/load_balancer.rs:58-69 | with all weights at least 1, no call panics |
| RoundRobin.RunReady | src/load_balancer.rs:58-69 | with all weights at least 1, any number of calls succeeds, keeps the invariant and keeps the servers |
| RoundRobin.RunCycles | src/load_balancer.rs:58-69 | from a fresh balancer, `m * sum(w)` calls return slot 0 `w0` times, slot 1 `w1` times, and so on, `m` times over |
| RoundRobin.Schedule | src/load_balancer.rs:58-69 | any number of calls from a fresh balancer returns a prefix of that cyclic schedule |
| RoundRobin.CountCycle | src/load_balancer.rs:58-69 | in one round, slot `i` appears exactly `w_i` times, and the round has length `sum(w)` |
| RoundRobin.CountCycles | src/load_balancer.rs:58-69 | in `m` rounds, slot `i` appears exactly `m * w_i` times |
| RoundRobin.Periodic | src/load_balancer.rs:58-69 | the schedule repeats with period `sum(w)` |
| RoundRobin.Fairness | src/load_balancer.rs:58-69 | over any `sum(w)` consecutive calls from a fresh balancer, slot `i` is returned exactly `w_i` times |
| Factory.LoadBalancerFactory | src/balancers/mod.rs:74-80 | succeeds exactly when `new` accepts the count, passes its error through unchanged, and otherwise yields an empty balancer |
| Factory.InsertAll | src/balancers/mod.rs:148-153 | inserting a list into an empty balancer fails exactly when the list has more than 256 entries; otherwise the balancer holds the list's addresses and weights in order, all counters 0, cursor 0 |
| Factory.CreateAndFillTheBalancer | src/balancers/mod.rs:141-155 | fails exactly on an empty list or one of more than 256 entries, with the error of `new`; otherwise holds exactly the list, in order, counters 0, cursor 0 |
| Factory.FilledIsFresh | src/balancers/mod.rs:148-154 | the filled balancer is the start state of the schedule |
| Factory.FilledSchedule | src/balancers/mod.rs:141-155 | with positive weights, the first `k` calls on a filled balancer follow the cyclic schedule, and configured server `i` appears `weight_i` times per round, at its own address |
| Factory.FilledSchedulable | src/balancers/mod.rs:141-155 | a filled list of 1 to 256 positive-weight servers never makes `next_server` panic |
| ServerApp.FillTheBalancer | src/server/app.rs:73-86 | the hint 5 is always accepted; fails exactly when the list has more than 256 entries; otherwise holds the list in order with counters 0 and cursor 0 |
| App.FixtureAddresses | src/app.rs:129-136 | both fixture addresses pass `SocketAddress::new` unchanged |
| App.FixtureSocketAddresses | src/app.rs:129-136 | builds 127.0.0.1:7878 and 127.0.0.1:7879 |
| App.GetLoadBalancer | src/app.rs:126-139 | the fixture holds 7878 with weight 1, then 7879 with weight 3, counters 0, cursor 0, hint 2; no `unwrap` fails |
| App.FixtureRound | src/app.rs:126-139 | one round of the fixture is slot 0 once, then slot 1 three times (total weight 4) |
| App.FixtureSchedule | src/app.rs:126-139 | eight calls on the fixture pick the slots 0, 1, 1, 1, 0, 1, 1, 1, whose addresses are 127.0.0.1:7878, then :7879 three times, then the same again |
| Addresses.SocketAddress.Get | src/server/socket_address.rs:60-72 | the rendering is the address, then one `:`, then the port, nothing else (`get`, and `Display` through it) |
| Addresses.MatchesIpv4Regex | src/server/socket_address.rs:27-29 | the ASCII reading of `^(\d{1,3}\.){3}\d{1,3}$` holds exactly when the split gives four pieces, each of one to three digits |
| Addresses.OctetsInRange | src/server/socket_address.rs:30-37 | the loop passes exactly when every piece parses as an `i32` that is at most 255 |
| Addresses.Split | src/server/socket_address.rs:30 | `split(".")` yields at least one piece, and no piece contains a dot |
| Addresses.JoinSplit | src/server/socket_address.rs:30 | joining the pieces with dots gives back the string |
| Addresses.ParseI32 | src/server/socket_address.rs:32 | a parsed value lies in the `i32` range |
| Addresses.MatchesGroupsIffSplit | src/server/socket_address.rs:27-29 | the matcher accepts `(\d{1,3}\.){k}\d{1,3}` exactly when the split gives `k + 1` pieces of one to three digits |
| Addresses.MatchesGroupsAlphabet | src/server/socket_address.rs:27-29 | a matched address contains only digits and dots |
| Addresses.DigitGroupParses | src/server/socket_address.rs:32 | a group of one to three digits parses to its decimal value |
| Addresses.OctetsInRangeIff | src/server/socket_address.rs:30-37 | on digit groups, the octet loop passes exactly when every group is at most 255 |
| Addresses.New | src/server/socket_address.rs:23-47 | a success stores both strings verbatim; errors are only the two constants; a regex mismatch gives `IPV4_ERROR` whatever the port |
| Addresses.NewAccepts | src/server/socket_address.rs:23-47 | `new` succeeds exactly on a dotted quad with octets up to 255 and a port that parses as an `i32` below 65536; `IPV4_ERROR` exactly when the address is bad; `PORT_NUMBER_ERROR` exactly when only the port is bad |
| Addresses.DecimalValue | src/server/socket_address.rs:40-44 | the decimal rendering of `n` has value `n` |
| Addresses.ParseDecimal | src/server/socket_address.rs:40-44 | the decimal rendering of a natural `n`, bare or after `+`, parses back to `n` exactly when `n` fits an `i32`; after `-` it parses to `-n` exactly when that fits, so every `i32` value, `-2^31` included, parses back from its rendering |
| Addresses.SplitDottedQuad | src/server/socket_address.rs:30 | a rendered dotted quad splits into its four renderings |
| Addresses.DottedQuadIsQuad | src/server/socket_address.rs:27-37 | every rendering of four octets up to 255 passes both address checks |
| Addresses.AcceptsEveryDottedQuad | src/server/socket_address.rs:23-47 | the plain decimal rendering (no sign, no leading zeros) of any four octets up to 255, with the plain rendering of any port below 65536, is accepted and stored verbatim; the other accepted spellings are covered by `Addresses.NewAccepts` |
| Addresses.GetParsesBack | src/server/socket_address.rs:60-66 | `get` renders `ipv4 ":" port`, and splitting at the first colon gives both parts back |
| Addresses.NewGetRoundTrip | src/server/socket_address.rs:46-66 | for an accepted address, `get` (and so `Display`) renders the two input strings joined by a colon, recoverable from the rendering |
| AddressExamples.GoodQuads | src/tests/socket_address_test.rs:35-163 | 127.0.0.1, 9.0.0.1 and 1.1.1.1 are dotted quads |
| AddressExamples.AcceptedExamples | src/server/socket_address.rs:23-47 | 127.0.0.1:65535 and 9.0.0.1:1, the accepted cases of src/tests/socket_address_test.rs:35-83, pass; so do the signed ports -1 and +80, which are not among the tests but which `parse::<i32>` takes and the `1 << 16` bound lets through |
| AddressExamples.RejectedAddressExamples | src/tests/socket_address_test.rs:6-143 | 256.256.256.256, 300.12.1.999, a trailing or leading space, a four-digit group, -17.0.0.1, 127.0.0., 127.0.0, 127, test, 12.t and 1.t.t.1 all give `IPV4_ERROR`, whatever the port |
| AddressExamples.RejectedPortExamples | src/server/socket_address.rs:40-44 | on a good address, the ports 99999 and 999998 of src/tests/socket_address_test.rs:145-163 give `PORT_NUMBER_ERROR`, and so does the non-number 1t, which the tests only pair with a bad address |
| AddressExamples.UnsignedPorts | src/server/socket_address.rs:40-44 | 65535 and 1 pass the port check; 99999 and 999998 do not |
| AddressExamples.SignedPorts | src/server/socket_address.rs:40-44 | no lower bound: -1 and +80 pass the port check |
| AddressExamples.MalformedPort | src/server/socket_address.rs:40-42 | 1t does not parse as a port |
| AddressExamples.QuadWithBadGroup | src/server/socket_address.rs:30-37 | four dot-free pieces, one of which is not a digit group up to 255, never form an accepted address |
| Framing.ReadLoop | src/server/app.rs:182-198 | the loop makes at most one read per outcome, and its count never exceeds the buffer length |
| Framing.ReadLoopShape | src/server/app.rs:182-198 | at most one doubling per read; final length is initial × 2^k for k full reads; earlier bytes kept; a failure is exactly a last read that failed and returns 0; otherwise the count is at least the starting `m` |
| Framing.DoubledIsPow2 | src/server/app.rs:189 | k doublings multiply the length by 2^k |
| Framing.ReadLoopFull | src/server/app.rs:188-191 | a read that fills the tail doubles the buffer with zeros and continues from `m + n` |
| Framing.ReadLoopShort | src/server/app.rs:186-187 | a 0-byte read returns `m`; a short read returns `m + n` with the buffer length unchanged |
| Framing.ReadLoopDelivers | src/server/app.rs:182-198 | unless a read failed, the count is `m` plus the number of bytes delivered, and the counted prefix is the old `m` bytes followed by every delivered byte in order |
| Framing.ReadLoopZeroTail | src/server/app.rs:185-191 | a buffer whose tail starts as zeros ends with zeros past the counted bytes, unless a read failed (then the count is 0 and earlier bytes stay in the buffer) |
| Framing.ByteVec.constructor | src/server/app.rs:134 | `vec![0u8; len]` |
| Framing.ByteVec.Resize | src/server/app.rs:189 | resizing keeps the old bytes and appends zeros |
| Framing.ByteVec.Fill | src/server/app.rs:185 | a read writes its bytes at `buf[m..]` and nothing else |
| Framing.ReadStep | src/server/app.rs:185-191 | one read, then a doubling exactly when the read filled the tail |
| Framing.ReadPass | src/server/app.rs:185-196 | one turn of the loop ends with `ReadLoop`'s count and buffer, or hands on to the remaining reads with the same outcome |
| Framing.ReadInLoop | src/server/app.rs:182-198 | the loop returns `ReadLoop`'s count and leaves the vector as `ReadLoop` leaves it; src/app.rs:107-123 is an identical copy |
| FramingExamples.DocExample | src/server/app.rs:157-172 | with a buffer of 8000, reads of 8000 then 1 byte return 8001 and leave the buffer at 16000 holding both reads |
| FramingExamples.ExactFill | src/server/app.rs:185-191 | a read that fills the initial 8193 bytes exactly doubles the buffer to 16386 and returns 8193 when the peer then closes |
| FramingExamples.ClosedAtOnce | src/server/app.rs:186 | a peer that closes at once gives 0 and leaves the buffer as it was |
| FramingExamples.FailureAfterFullRead | src/server/app.rs:192-195 | an error after a full read returns 0, discarding the bytes already read |
| Proxy.Process | src/server/app.rs:133-155 | the request is forwarded only when the backend connects, as every byte the client delivered (nothing if the read failed); the reply is relayed exactly when the backend's read, into the same grown buffer from `m = 0`, counts more than 0 bytes, and it is every byte the backend delivered; src/app.rs:58-80 is an identical copy |

## Left out

- TCP and tokio I/O are parameters:
  - each socket is a script of read outcomes; a script that runs out stands for a peer that has closed;
  - the backend connection is a boolean;
  - `write_all` is the value returned from `Process`, and its `unwrap` panics are not modelled.
- `Server::run`, `App::run`, the accept loop, `tokio::spawn`, `main.rs` (Ctrl-C handling, printing) and every `println!`/`eprintln!` are not part of this model.
- The `Arc`/`Mutex` concurrency is not modelled. The cursor lock spans the whole of `next_server`, so each call is modelled as one sequential step.
- JSON configuration (`configure` in src/balancers/mod.rs and src/server/app.rs) is not part of this model. The fill logic takes an already parsed list of (address, weight) pairs.
- Panics:
  - `create_and_fill_the_balancer` and `fill_the_balancer` panic on an error; the model returns that error as `Err`;
  - the panics of `next_server` are the precondition `Servable`, characterised by `RoundRobin.ServableIff`: the `INDEX_PROBLEM` panic, and the out-of-range `self.addresses[*idx]` of src/load_balancer.rs:60 on an empty vector. `fill_the_balancer` (src/server/app.rs:73-86, `ServerApp.FillTheBalancer`) accepts an empty server list, so a server configured with no backends panics on every connection.
- `Vec::with_capacity` and `capacity()`: the capacity is an allocator matter. The model records the hint given to `new` and nothing more.
- The `regex` crate is replaced by an explicit matcher. `\d` is read as an ASCII digit; a non-ASCII digit would fail `parse` and give the same `IPV4_ERROR`.
- `get_ipv4` and `get_port_number` are the fields of the `SocketAddress` datatype. `Display` is `Get`.
- The operations return an error kind, `Balancer.BalancerError`, not its text; the texts of both layouts are `Balancer.LegacyMessage` and `Balancer.TraitMessage`, and `Balancer.MessagesIdentifyError` shows that each text names one kind.
- Integer widths: `usize` weights and counters are unbounded naturals; counters never exceed the weight, so no wrap-around can arise. The `i32` of `parse` is an `int` whose bounds, -2^31 to 2^31 - 1, are written out in `ParseI32`.
- `Proxy.Process`: the order in which `process` interleaves the client's and the backend's reads is not observable in this model, because each socket is its own script.
