# Round-robin server pool of a small HTTP load balancer, in Dafny

The load balancer keeps a `ServerList`. It holds the backends admitted at startup, in configuration order, each with its route and its last known `Alive` flag. It also holds the cursor `Latest`: the index of the backend used last after a forward, and the index probed last after a failed probe. This project models that state and the operations on it:

- `isAlive` probes one backend and records the answer in its `Alive` flag.
- `init` probes every configured route once and admits only those that answer. It then sets the cursor to -1.
- `nextServer` is `(Latest + 1) % len(Servers)`.
- `loadBalance` handles one request. It probes at most `len(Servers)` candidates, in cyclic order starting just after the cursor. It forwards the request to the first backend that answers and moves the cursor there. If no backend answers, it responds 503 "No Servers Available", and every failed probe has moved the cursor one step.

The network is replaced by an oracle `probe: nat -> bool`. `probe(k)` tells whether the k-th TCP dial of the current operation reaches its backend. For `init`, dial k is the one for the k-th route. For `loadBalance`, dial k is the k-th attempt of that call. Forwarding is reduced to the outcome `Forwarded(index)`, and the 503 response to `Unavailable`.

Files:

- `go_arith.dfy` (`GoArith`): Go's truncating `%`, and the facts about modular arithmetic that the cursor proofs use.
- `servers.dfy` (`Servers`): the `Server` and `Outcome` values, `isAlive`, and which routes `init` admits.
- `selection.dfy` (`Selection`): `nextServer` and the selection performed by one `loadBalance` call, written as functions of the cursor, the pool size and the oracle. It also holds the properties of that selection and of a run of successive requests.
- `load_balancer.dfy` (`LoadBalancer`): the `ServerList` class. `Init` and `LoadBalance` are methods with loops, and they are proved against the functions above.

Three details of the code that the model keeps:

- The cursor is reassigned after every failed probe, and again on success (load_balancer.go:110, 117). It does not move once per request.
- `init` appends to whatever the list already holds. It does not start from an empty list (load_balancer.go:89).
- A fresh `ServerList` has `Latest` 0, Go's zero value. `Latest` becomes -1 only when `init` runs.

## Model

| member | source | states |
|---|---|---|
| GoArith.Rem | load_balancer.go:99 | Go's `%` for a positive divisor. For a non-negative dividend it lies in `[0, b)` and equals the mathematical remainder. For a negative dividend it lies in `(-b, 0]`. |
| Servers.IsAlive | load_balancer.go:51-67 | A probe returns the oracle's answer and stores that same answer in the server's `Alive`. The route does not change. |
| Servers.Admitted | load_balancer.go:72-91 | The servers `init` appends: at most one per input position, so a route listed twice can be admitted twice. Each has `Alive` set and a route taken from the input. |
| Servers.AdmittedInOrder | load_balancer.go:72-91 | `init` keeps exactly the routes whose probe succeeded, in input order. The j-th admitted server is the route at the j-th successful position, marked alive. |
| Servers.AdmittedMembership | load_balancer.go:88-90 | A server is admitted iff it is marked alive and some input position holding its route was probed successfully. |
| Selection.NextServer | load_balancer.go:98-100 | Given a non-empty pool and `Latest >= -1`, the result is an index in `[0, n)` and equals `(Latest + 1) mod n`. From -1 it is 0, and from the last index it wraps to 0. Below -1, Go's `%` would give a non-positive value. |
| Selection.Advance | load_balancer.go:116-117 | Stepping the cursor with `Latest = nextServer()` never takes it below -1. After at least one step it indexes the pool. |
| Selection.AdvanceClosedForm | load_balancer.go:116-117 | k >= 1 steps from a cursor `L >= -1` land on `(L + k) mod n`. Zero steps leave L, which is -1 after `init`. |
| Selection.Candidate | load_balancer.go:105 | The index examined by each attempt of the loop is a valid index of the pool. |
| Selection.CandidateOffset | load_balancer.go:104-118 | Attempt k (k < n) examines index i exactly when i lies k + 1 places after the cursor, counting cyclically. |
| Selection.CandidatesDistinct | load_balancer.go:104-118 | The n attempts of one call examine n different indices, so no backend is probed twice in one call. |
| Selection.FirstUp | load_balancer.go:105-106 | Returns the first attempt below n whose probe succeeds, with every earlier attempt failing. It returns none exactly when all n attempts fail. |
| Selection.Select | load_balancer.go:102-122 | One call makes at most n probes, and an empty pool gets 503 with no probe and the cursor unchanged. On a non-empty pool the cursor ends inside the pool. A forward goes to the new cursor, after its own probe succeeded and all earlier probes failed. A 503 on a non-empty pool follows exactly n probes. |
| Selection.SelectForwardsFirstLive | load_balancer.go:105-113 | A request is forwarded to i iff some attempt k < n succeeds, all earlier attempts fail, and `i == (Latest + 1 + k) mod n`. |
| Selection.SelectExhausted | load_balancer.go:116-121 | 503 is answered iff every one of the n probes fails (on an empty pool, always). In that case, on a non-empty pool, n probes were made and the cursor is `(L + n) mod n`. That is L itself for `0 <= L < n`, and n - 1 for L = -1. |
| Selection.SingleServer | load_balancer.go:103-121 | With one backend, the request is forwarded iff this call's probe answers. Exactly one probe is made, and the cursor ends at 0. |
| Selection.AfterProbes | load_balancer.go:105-117 | The probes of one call change neither the length of the pool nor any route. |
| Selection.AfterProbesAt | load_balancer.go:105-117 | After m <= n probes, the entry k + 1 places after the cursor holds the answer of probe k when k < m. Every other entry is unchanged. |
| Selection.Serve | load_balancer.go:140-142 | Its contract states only that a run of requests yields one outcome per request. What is proved about such a run is in `Selection.ServeAllUpIsCyclic`. |
| Selection.ServeAllUpIsCyclic | load_balancer.go:98-113 | When every backend answers, the j-th of a run of requests goes to index `(L + 1 + j) mod n`: strict cyclic order after the starting cursor. |
| Selection.ServeFromInitIsRoundRobin | load_balancer.go:93-113 | From the cursor that `init` leaves, with every backend up, the j-th request goes to server `j mod n`. |
| LoadBalancer.ServerList.constructor | load_balancer.go:22-25 | A new `ServerList` has no servers and `Latest` 0, and satisfies the cursor invariant. |
| LoadBalancer.ServerList.Init | load_balancer.go:69-96 | Appends exactly the admitted servers to the list, sets `Latest` to -1 so that the next index is 0, and keeps the cursor invariant. |
| LoadBalancer.ServerList.LoadBalance | load_balancer.go:102-122 | The outcome, the new cursor and the number of probes are those of `Select`. On an empty pool nothing changes. Otherwise the pool becomes `AfterProbes` of the old pool, so only the probed entries' `Alive` flags change. Afterwards the cursor lies in `[0, n)` for a non-empty pool. |

## Left out

- `ParseConfig` and `MustParseConfig` (load_balancer.go:32-49): file and JSON input. Both error paths return a nil error, so `MustParseConfig` never panics.
- The TCP dial and its one-second timeout inside `isAlive` (load_balancer.go:52-59): network I/O. It is replaced by the probe oracle.
- All logging (load_balancer.go:54, 57, 59, 64, 70, 87, 94, 107, 111, 120): it has no effect on the state.
- The `director` closure, `httputil.ReverseProxy` and `ServeHTTP` (load_balancer.go:78-85, 108): request rewriting and relaying, done by the Go standard library. A forward is the outcome `Forwarded(index)`.
- The 503 status code and body text (load_balancer.go:121). They are the outcome `Unavailable`.
- `main`, `http.HandleFunc` and `ListenAndServe` (load_balancer.go:124-145): process startup and wiring.
- Concurrency: request handlers share `Latest` and the `Alive` flags without a lock. The model runs requests one after another, so races are not modelled.
- LoadBalancer.ServerList.LoadBalance: requires `Latest >= -1`. Below that, Go's `%` may give a negative index, and then the slice access panics. The cursor never goes below -1, because it starts at 0 or -1 and is only ever set to indices.
- GoArith.Rem: for a negative dividend it states only the range of the result, not its exact value. No reachable state uses a negative dividend.
- Selection.ServeFromInitIsRoundRobin: states the cyclic order of selections, not the derived count that each backend is chosen at least `floor(M/N)` times in M requests.
