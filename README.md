# gRPC client connection pool, modelled in Dafny

This project models the connection pool in `client/grpc/grpc_pool.go`. The
pool hands out one gRPC client connection per request, while it caps three
things: connections per address (`size`), streams per connection
(`maxStreams`) and connections kept while idle (`maxIdle`). Connections older
than `ttl` seconds are closed when their last stream is released.

The model comes in two layers.

- **`PoolSpec`** (`pool_spec.dfy`) describes one address's bookkeeping as a
  value, `Sub`:
  - the listed connections in list order, each reduced to its stream
    counter, its creation time, whether its transport was closed and the
    error recorded on it;
  - the `count` counter;
  - the `idle` counter.

  `AfterGetConn` and `AfterRelease` are what `getConn` and `release` do to
  this value. `FirstFit` is the scan of `getConn`, and `Evicts` is the
  eviction test of `release`. The lemmas prove:
  - the contracts of each path;
  - the invariant `Inv`, which both operations keep;
  - the round trip release-then-acquire.

  Module `PoolScenarios` works through small pools step by step, and module
  `GrpcPoolScenarios` (`grpc_pool_scenarios.dfy`) replays one of them on the
  objects. Every scenario starts from `Empty`, the list that line 73 stores,
  so it runs on the corrected lookup described below.
- **`GrpcPool`** (`grpc_pool.dfy`) models the program's own objects. Each is
  a class with mutable fields:
  - `PoolConn` is a list node, or the sentinel head;
  - `StreamsPool` is a doubly linked list behind a sentinel `head`, with
    `count` and `idle`;
  - `Pool` holds the caps and a `map<string, StreamsPool>`.

  A ghost sequence `Conns` and the predicate `StreamsPool.Valid` tie the
  `next`/`pre` links to the list contents. `StreamsPool.View()` maps the
  heap to a `PoolSpec.Sub`. Each method is proved to change that view
  exactly as `AfterGetConn` or `AfterRelease` prescribe. The scan is a
  `while` loop over `next` links. The splices rewrite `pre`/`next` in place.

The model follows the code as written, with one exception: `Pool.GetConn` is
built on the corrected lookup `Pool.LookupOrCreate` (see "## Findings"). For
an address already in the map it is the code as written. On the first
`getConn` for an address the code as written stores a new list but then scans
through the nil result of the failed lookup; `Pool.GetConn` scans the newly
stored, empty list instead and dials.

Two consequences hold for the program as written and are outside the model.
The first `getConn` for an address panics at line 77 with the mutex held.
The `tooManyConnection` return at line 95 leaves the mutex locked, so every
later call blocks, even from a single goroutine. The scenarios below are
therefore what the code computes once those two faults are out of the way.

Four behaviours one would expect of such a pool are not in the code:

- There is no TTL eviction during the scan of `getConn`.
- A connection retained as idle is not moved to the front.
- An evicted connection is "removed" with `removeConn`. That helper does
  nothing but clear `pre` when the node has no successor. In a valid list
  that is exactly the last node, so the last node stays listed and counted,
  with its transport closed.
  - As a result, an error release of the only connection would be expected
    to drop `count` to 0; here it stays 1
    (`PoolScenarios.ErrorReleaseOfOnlyConnection`).
  - The next `getConn` hands the closed connection out again and takes
    `idle` to -1 (`PoolScenarios.IdleCanGoNegative`, `GrpcPoolScenarios.ClosedConnReused`).
  - Therefore `Inv` bounds `idle` only from above: it is at most the number
    of stream-free listed connections, and so at most `count`. It has no
    lower bound.
- An error passed to `release` is acted on only when the last stream is
  given back. When the connection still holds other streams, `release`
  returns at lines 115-117 before looking at the error, and nothing records
  it on the node. The error-free release of the other stream then keeps the
  faulted connection as idle (`PoolScenarios.ErrorOnBusyConnectionForgotten`).

The model assumes callers give back each connection obtained from a
successful `getConn` exactly once, while it is still listed. This appears as
the `conn in conn.sp.Conns && conn.streams >= 1` precondition of `release`
(see "## Left out" for what it excludes).

## Model

| member | source | states |
|---|---|---|
| PoolSpec.NewOptions | client/grpc/grpc_pool.go:53-67 | a stream cap below one becomes one, an idle cap below zero becomes zero, any other value and `size`, `ttl` are kept |
| GrpcPool.Pool.constructor | client/grpc/grpc_pool.go:53-67 | the new pool's caps equal `NewOptions` of the arguments, its address map is empty and it is valid |
| PoolSpec.AfterGetConn | client/grpc/grpc_pool.go:69-110 | `getConn` on one address's bookkeeping: the scan, the size check and the dial, with the outcome; its properties are the contracts of `PoolSpec.GetConnHit`, `PoolSpec.GetConnMiss`, `PoolSpec.GetConnStreamsBounded` and `PoolSpec.AfterGetConnPreservesInv` |
| PoolSpec.AfterRelease | client/grpc/grpc_pool.go:112-133 | `release` on one address's bookkeeping; its properties are the contracts of `PoolSpec.ReleaseBusy`, `PoolSpec.ReleaseLast`, `PoolSpec.ReleaseWithError`, `PoolSpec.AfterReleasePreservesInv` and `PoolSpec.ReleaseThenGetConnAgain` |
| PoolSpec.Evicts | client/grpc/grpc_pool.go:124 | a connection that has just lost its last stream is evicted iff an error was passed, `idle` has reached `maxIdle`, or its age exceeds `ttl` |
| GrpcPool.PoolConn.Sentinel | client/grpc/grpc_pool.go:73 | the zero-valued head node: no handle, no error, no address, pool or list, no streams and no links |
| GrpcPool.PoolConn.constructor | client/grpc/grpc_pool.go:103 | a newly dialed node: the given handle, address, pool, list and creation time, one stream, no recorded error, not linked and not closed |
| PoolSpec.FirstFit | client/grpc/grpc_pool.go:77-92 | the index returned is the first whose stream counter is below `maxStreams`, or the list length when there is none |
| PoolSpec.FirstFitAt | client/grpc/grpc_pool.go:77-92 | a connection with room that is preceded only by full ones is the one the scan picks |
| GrpcPool.StreamsPool.FindFree | client/grpc/grpc_pool.go:77-92 | the loop over `next` links returns the listed connection at index `FirstFit` of the view, or null when no connection has room |
| GrpcPool.StreamsPool.TakeStream | client/grpc/grpc_pool.go:84-89 | the chosen connection gets exactly one more stream and `idle` drops by one exactly when it had none; the list, `count` and every other connection are unchanged |
| PoolSpec.GetConnHit | client/grpc/grpc_pool.go:77-91 | the hit path is taken iff some connection has room; it picks the first such, adds exactly one stream to it, lowers `idle` iff it had none, and changes no other connection and not `count` |
| PoolSpec.GetConnMiss | client/grpc/grpc_pool.go:93-107 | with no room left, a full address yields `tooManyConnection` and a dial failure yields the dial error, both with the state unchanged; a dial success puts a new connection with one stream, created now, at the front, adds one to `count` and keeps `idle` |
| PoolSpec.GetConnStreamsBounded | client/grpc/grpc_pool.go:77-103 | the connection handed out, reused or new, carries between 1 and `maxStreams` streams, and a failure leaves the state as it was |
| GrpcPool.StreamsPool.Reuse | client/grpc/grpc_pool.go:84-91 | on the hit path, taking a stream of the first connection with room changes the view exactly as `AfterGetConn` prescribes, with outcome `Reused` at that index; the list, `Repr` and the node's recorded error stay, and the node then holds 1 to `maxStreams` streams |
| GrpcPool.StreamsPool.PushFresh | client/grpc/grpc_pool.go:103-107 | the dialed connection is new, has one stream and the current time, belongs to this list, and goes in front: `Conns` becomes `[conn] + old(Conns)` |
| GrpcPool.AddConnAfter | client/grpc/grpc_pool.go:150-159 | linking `conn` in after the sentinel head keeps the links consistent, prepends it to `Conns` and to the view, adds one to `count`, and leaves `idle` and `conn`'s own counters alone |
| GrpcPool.StreamsPool.Acquire | client/grpc/grpc_pool.go:77-109 | the scan, the size check and the dial change the heap exactly as `AfterGetConn` prescribes; the result is null iff that outcome is a failure, carrying its error; a reuse returns the listed connection at the outcome's index; a dial returns a fresh node now in front |
| GrpcPool.Pool.GetConn | client/grpc/grpc_pool.go:69-110 | for an address already in the map, the same as `Acquire` on its list, with every other address untouched, the pool still valid, only fresh objects added to its footprint and the recorded error of every listed connection unchanged; on the first use of an address it uses the corrected lookup and acts as `Acquire` on a new empty list, where the code as written dereferences nil (see "## Findings") |
| GrpcPool.Pool.AcquireIn | client/grpc/grpc_pool.go:77-109 | `getConn` from the scan on, for the list stored for the address: the list's view follows `AfterGetConn` with the same outcome cases as `Acquire`, the pool stays valid with an unchanged map, its footprint grows only by fresh objects, and no listed connection's recorded error changes |
| PoolSpec.AfterGetConnPreservesInv | client/grpc/grpc_pool.go:69-110 | `getConn` keeps `Inv`: `count` is the list length and at most `size` or the list is empty, every stream counter is in `[0, maxStreams]`, and `idle` is at most the number of stream-free connections |
| PoolSpec.EmptyInv | client/grpc/grpc_pool.go:73 | a fresh `streamsPool` satisfies `Inv` |
| GrpcPool.StreamsPool.constructor | client/grpc/grpc_pool.go:73 | a new list is valid and empty, with `count` and `idle` zero, and it satisfies `Inv` |
| PoolSpec.IdleAtMostCount | client/grpc/grpc_pool.go:30-33 | under `Inv`, `idle` never exceeds `count` |
| GrpcPool.StreamsPool.DropStream | client/grpc/grpc_pool.go:114 | the released connection loses exactly one stream and nothing else changes |
| PoolSpec.ReleaseBusy | client/grpc/grpc_pool.go:114-118 | a release that leaves streams only lowers that connection's counter by one; `count`, `idle` and the other connections stay |
| PoolSpec.ReleaseLast | client/grpc/grpc_pool.go:119-131 | releasing the last stream evicts iff there was an error, `idle >= maxIdle` or the age exceeds `ttl`; a kept connection adds one to `idle` with list and `count` unchanged; an evicted one with a successor leaves the list and `count` drops by one; an evicted last node stays listed, closed; eviction never changes `idle` |
| PoolSpec.ReleaseWithError | client/grpc/grpc_pool.go:124-128 | a release of the last stream with an error never counts the connection as idle: it is unlinked, or it is the last node and closed |
| GrpcPool.StreamsPool.Evict | client/grpc/grpc_pool.go:124-128 | `removeConn` followed by the close: a node with a successor is dropped from `Conns` and the view and `count` drops by one; the last node stays, marked closed |
| GrpcPool.RemoveConn | client/grpc/grpc_pool.go:139-148 | a node with both neighbours is spliced out (the list loses exactly that element, links stay consistent, `count` drops by one); otherwise only `pre` is cleared, the list, `count` and the view are unchanged, and this case is exactly the last node |
| GrpcPool.SpliceOut | client/grpc/grpc_pool.go:144-147 | unlinking a node that has both neighbours removes exactly it from `Conns`, `Repr` and the view, and lowers `count` by one |
| GrpcPool.TailPreCleared | client/grpc/grpc_pool.go:140-142 | clearing `pre` on the last node keeps the list valid and its view unchanged |
| GrpcPool.PoolConn.Unlinked | client/grpc/grpc_pool.go:144-146 | after the two pointer writes of the splice and the `count` decrement, the list is valid again and its view is the old one without that element |
| GrpcPool.StreamsPool.PutBack | client/grpc/grpc_pool.go:112-133 | the heap changes exactly as `AfterRelease` prescribes; the connection loses one stream, is closed iff evicted, and leaves `Conns` iff evicted and not the last node |
| GrpcPool.Pool.Release | client/grpc/grpc_pool.go:112-133 | the same as `PutBack`, with the caps of `conn.pool`; the pool stays valid, its footprint does not grow, and no listed connection's recorded error changes |
| GrpcPool.PoolConn.Close | client/grpc/grpc_pool.go:135-137 | the connection is released with its own recorded error, as `AfterRelease` prescribes; like `Pool.Release` it states the node's new stream count, whether it is closed, and what its list's `Conns` becomes, and that the pool's footprint does not grow |
| PoolSpec.AfterReleasePreservesInv | client/grpc/grpc_pool.go:112-133 | a release of a connection holding a stream keeps `Inv` |
| PoolSpec.ReleaseThenGetConnAgain | client/grpc/grpc_pool.go:112-133 | after a successful `getConn`, an error-free release that does not evict, followed by `getConn`, hands out the same connection and restores exactly the state the first `getConn` left |
| PoolSpec.ReleaseKeepsFirstFit | client/grpc/grpc_pool.go:114-131 | releasing a stream of the first connection with room, without eviction, keeps it the first with room, so taking it again restores the state |
| PoolScenarios.SecondGetConnRefused | client/grpc/grpc_pool.go:94-96 | with `size` 1 and one stream per connection, a second `getConn` while the first stream is held fails with `tooManyConnection` and changes nothing |
| PoolScenarios.TwoByTwo | client/grpc/grpc_pool.go:77-107 | with `size` 2 and two streams per connection, five requests get: new, reuse of it, a second new one in front, reuse of that, and `tooManyConnection` with both connections full |
| PoolScenarios.ReleaseThenReuse | client/grpc/grpc_pool.go:122-131 | an error-free release within the ttl and the idle budget keeps the connection and counts it idle, and the next `getConn` takes that same connection and `idle` returns to 0 |
| PoolScenarios.ErrorReleaseOfOnlyConnection | client/grpc/grpc_pool.go:139-143 | an error release of the only connection closes it but leaves it listed with `count` 1 |
| PoolScenarios.ErrorOnBusyConnectionForgotten | client/grpc/grpc_pool.go:114-131 | an error release of one of two streams only lowers the counter, and the error-free release of the other keeps the connection as idle |
| PoolScenarios.IdleCanGoNegative | client/grpc/grpc_pool.go:139-143 | with no idle budget, releasing the only connection keeps it listed and closed, and the next `getConn` reuses it and leaves `idle` at -1 |
| GrpcPoolScenarios.ClosedConnReused | client/grpc/grpc_pool.go:139-143 | on the objects: the second `getConn` returns the very connection whose transport the release closed, and `idle` is -1 |
| GrpcPool.Pool.LookupAsWritten | client/grpc/grpc_pool.go:71-74 | on a known address it returns that address's list; on a new address it stores a fresh empty list but returns nil |
| GrpcPool.FirstUseLeavesNil | client/grpc/grpc_pool.go:71-77 | on a fresh pool, the lookup as written returns nil for the first address, so the scan at line 77 would dereference nil |
| GrpcPool.Pool.LookupOrCreate | client/grpc/grpc_pool.go:71-74 | the list returned is the one stored for the address: the old one when it was known, otherwise a fresh, empty and valid one satisfying `Inv`; no other address changes and only fresh objects join the pool's footprint |

## Left out

- The mutex is left out. Every operation is one atomic step. This includes the missing `Unlock` before the `tooManyConnection` return at line 95, and the unlocked window between the size check and the dial. Those are concurrency effects.
- `grpc.Dial` is an input: a `DialResult` that is either a handle or an error. `ClientConn.Close` is recorded as the `closed` flag on the node. Both are foreign transport calls.
- The embedded `*grpc.ClientConn` handle is an opaque `ClientConn` value.
- Go's `int` and `int64` counters, caps and Unix timestamps (lines 16-21, 31-33, 45-46) are unbounded integers in the model; 64-bit overflow is not modelled.
- `closed` is a flag, so the model cannot tell one `ClientConn.Close` call from two. A closed last node that is handed out again and evicted again has its transport closed a second time (line 127); the model records only that it is closed.
- `time.Now().Unix()` is the parameter `now`. `int64(ttl.Seconds())`, a float conversion, is replaced by a `ttl` given in whole seconds.
- AddConnAfter: modelled only for insertion right after the sentinel head, its only use in the source.
- `release` ignores its `addr` parameter; `poolConn.Close` has no parameters and passes its own `addr` field to it. In the model `Pool.Release` likewise takes an `addr` it does not use, and `PoolConn.Close` passes its `addr` field.
- Three behaviours one would expect of such a pool are absent from the code and so are not modelled: TTL eviction during the scan, moving a retained connection to the front, and a re-check of `size` after dialing.
- GrpcPool.Pool.Release: requires the connection to be listed and to hold a stream (also on `PutBack`, `PoolConn.Close` and `RemoveConn`), so misuse is not modelled: a second release of the same connection takes `streams` to -1 (line 114) and runs the eviction test again, and a release of a node already spliced out makes `removeConn` re-splice through its stale `pre`/`next` and lower `count` a second time (lines 144-146).
- PoolSpec.Inv: has no lower bound `0 <= idle`, because the code breaks it (PoolScenarios.IdleCanGoNegative).

## Findings

| source | as written | input that shows it | evidently intended | confidence | as-written member | corrected member |
|---|---|---|---|---|---|---|
| client/grpc/grpc_pool.go:71-77 | on a missing address the fresh `streamsPool` is stored in the map, but the scan reads `sp.head` from the nil `sp` of the failed lookup | the first `getConn` for any address, on a new pool | the stored pool is the one scanned; `GrpcPool.Pool.GetConn` is built on this corrected lookup | not executed | GrpcPool.FirstUseLeavesNil | GrpcPool.Pool.LookupOrCreate |
