# wsclient request correlation, modelled in Dafny

This project models the request-correlation core of the `wsclientsdk` WebSocket client:
the table of pending requests (`handlers` in `client.go`) and the envelope constructor it
relies on (`command.go`). Callers send commands over one connection. `SendRequest` tags a
command with a fresh correlation id and, when given a callback, stores it in the table with
the current time. The read loop hands a binary frame that decodes to a response
(`Type == 1`) to the callback registered under its `RequestId`, with status 200 and the raw
frame, and removes the entry. A once-per-second sweep fires every entry older than
`REQUEST_TIMEOUT` with status 408 and nil data, and removes it.

Layout:

- `wrappers.dfy`, module `Wrappers`: `Option` (Go's `nil`) and `Result` (Go's `error` return).
- `command.dfy`, module `Command`: the `REQUEST_TYPE`/`RESPONSE_TYPE` constants, the
  `WsCommand`, `TempCommand` and `WsResult` shapes, and `NewCommand`.
- `client.dfy`, module `Client`: `WriteMessage`, `Send`, `SendRequest` with its table change
  `Register`, `Dispatch` (the binary-frame branch of `loopReadMessage`) and `Sweep` (the
  `Range` body of `timeoutCheck`). Every transition returns the new table and the callback
  firings it performs. `FiresWhatItRemoves` is the contract shared by dispatch and sweep:
  only pending entries fire, each at most once and with its own callback, and exactly the
  fired entries leave the table.
- `runs.dfy`, module `Runs`: sequential interleavings of registrations, inbound frames and
  sweep ticks. It proves the single-fire and no-leak properties over whole runs, and that a
  request fires by the first tick past its deadline.
- `scenarios.dfy`, module `Scenarios`: a request that times out, and a request that is
  answered and then receives a duplicate response and a late tick.

Abstractions:

- Callbacks are an opaque type parameter `C`. A `Firing` records the entry id, the callback,
  the status and the data (`None` is a nil slice). The id is only there so that properties
  can be stated per entry; the source does not pass it to the callback.
- JSON decoding is a function parameter `decode: Bytes -> Option<TempCommand>` (`None` is an
  unmarshal error). JSON encoding is a parameter `encode: WsCommand<D> -> Option<Bytes>`.
- `uuid.New()` becomes a freshness precondition: the new id is not pending, and in a run no
  id is generated twice.
- Time is an integer tick count. `REQUEST_TIMEOUT` is a parameter in the same unit, since it
  is a mutable global in the source. The comparison is the strict `now - ts > timeout`.
- The sweep visits entries in an unspecified order, as `sync.Map.Range` does. `Sweep` picks
  keys arbitrarily, and its contract is the order-free predicate `IsSweep`.
  `SweepOrderIrrelevant` shows that the order only changes the order of the firings.
- Message types use gorilla/websocket's numbers, which are the opcodes of section 5.2 of
  RFC 6455 (text 1, binary 2). Statuses are `http.StatusOK` (200) and
  `http.StatusRequestTimeout` (408).
- The connection handle is a boolean `hasConn`. The transport's own write outcome is a
  parameter `transportErr`.

Three behaviours of the code are easy to expect otherwise, and the model keeps them. The
callback of an answered request gets status 200 and the whole raw frame, not the `Status`
the server wrote into its reply (`ServerStatusIsNotForwarded`). A command whose encoding
fails is still sent, as an empty binary frame, because `Send` and `SendRequest` discard the
marshal error (stated on `Send` and `SendRequest`). `SendRequest` stores the handler before it writes, so a request
whose write fails stays pending and later times out (`RegistrationIgnoresWriteOutcome`).

## Model

| member | source | states |
|---|---|---|
| `Command.KindsAreDistinct` | command.go:4-8 | Requests have type 0 and responses type 1, so the two kinds never share a type value. |
| `Command.NewCommand` | command.go:33-41 | The envelope has request type, carries the name and the data unchanged, and has an empty correlation id. |
| `Command.RequestIsNeverResponse` | command.go:10-22 | The `TempCommand` fields of a `NewCommand` envelope never pass the response check, whatever id is filled in later. |
| `Client.WriteMessage` | client.go:119-134 | With no connection handle, the result is the "no connection" error. Otherwise the write succeeds exactly when the transport reports no error, and it then writes the given frame. |
| `Client.Send` | client.go:240-248 | The table is untouched. The envelope has an empty id, request type, and the given name and data. The result is `WriteMessage`'s, error included: it succeeds only with a connection and no transport error. A failed encoding is still written, as an empty binary frame. |
| `Client.Register` | client.go:258-263 | With a callback, exactly one entry is added: the fresh id maps to the callback and the current time, and the table grows by one. Without a callback the table is unchanged. Existing entries are kept either way. |
| `Client.SendRequest` | client.go:250-269 | The envelope carries the generated id even without a callback. The table changes as `Register` says. The result is `WriteMessage`'s on the encoded envelope, error included. A failed encoding is still written, as an empty binary frame. |
| `Client.RegistrationIgnoresWriteOutcome` | client.go:258-267 | The table after `SendRequest` is the same whether or not the write succeeds. |
| `Client.ResponseId` | client.go:207-221 | A frame yields a correlation id exactly when it is binary, decodes, and has response type. The id is the decoded `RequestId`. |
| `Client.Dispatch` | client.go:207-235 | It fires at most once. It fires exactly when the frame is a response whose id is pending, and then for that id, with 200 and the whole raw frame. Only the fired entry is removed; otherwise the table is unchanged. |
| `Client.UnknownResponseIsNoop` | client.go:223 | A response whose id is not pending, and any frame that is not a response, fires nothing and leaves the table unchanged. |
| `Client.DuplicateResponseIsNoop` | client.go:223-229 | Dispatching the same frame a second time fires nothing and changes nothing. |
| `Client.ServerStatusIsNotForwarded` | client.go:227 | The callback of an answered request gets exactly one firing with 200 and the raw frame, whatever status the server's reply carried. |
| `Client.OwnRequestEchoIsIgnored` | client.go:221-223 | A frame that decodes to the client's own `SendRequest` envelope fires nothing and leaves the table unchanged, even right after that request registered its callback. |
| `Client.ExpiryIsMonotone` | client.go:170 | An entry expired at some time stays expired at every later time. |
| `Client.Sweep` | client.go:166-179 | In any visiting order, it fires 408 with nil data for exactly the expired entries, each once with its own callback, and removes exactly those. |
| `Client.SweepOrderIrrelevant` | client.go:166-179 | Any two sweeps of the same table at the same time leave the same table, and fire the same firings the same number of times. |
| `Client.SweepLeavesNoStaleEntry` | client.go:170-174 | After a sweep no pending entry is older than the timeout. Entries at or below the threshold are kept unchanged. |
| `Runs.RunInvariant` | client.go:221-231 | After every prefix of a run with fresh ids: no id has fired twice, no fired id is pending, and every fired or pending id was pending at the start or registered in the prefix. |
| `Runs.SingleFire` | client.go:166-231 | In any sequential interleaving of registrations, frames and sweeps with fresh ids, no entry fires twice. Nothing that fired is left in the table, and only pending or registered ids ever fire. |
| `Runs.PendingOrFired` | client.go:172-174 | Once registered, an entry stays pending with its callback and time unchanged until it has fired. |
| `Runs.FiresByDeadline` | client.go:157-179 | A request registered with a callback has fired by the end of any later tick that comes strictly more than the timeout after its registration. |
| `Runs.FiringsCarryCallback` | client.go:223-227 | In a run with fresh ids, every firing of a request's id carries the callback registered with that request. |
| `Runs.FiresExactlyOnce` | client.go:157-231 | With fresh ids, such a request appears exactly once in the run's firing log, and that firing carries its own callback. |
| `Scenarios.TimeoutScenario` | client.go:166-179 | Registered at 0 with timeout 20: the tick at 20 fires nothing, and the tick at 21 fires it once with 408 and nil data, leaving the table empty. |
| `Scenarios.ResponseScenario` | client.go:221-231 | A matching response fires the callback once with 200 and the raw frame. A duplicate response and a tick past the deadline then fire nothing, and the table ends empty. |

## Left out

- Connecting, reconnecting and `Close`: the dial, the 2-second retry delay and the
  self-recursive retry are network I/O whose outcome depends on the peer.
- `keepalive`: the ping ticker and the pong handler that extends the read deadline are
  transport control frames and timers with no table logic.
- `ReadMessage` and the read-error path of `loopReadMessage`: reading is transport I/O. An
  error ends the loop and reconnects without touching the table, so pending requests wait
  for their timeout.
- The `temp != nil` guard in the read loop: stored handlers are never nil, so the guard
  always holds and the model leaves it out.
- Text frames and requests sent by the server are ignored by the read loop. They are
  modelled only as frames that fire nothing.
- Concurrency: goroutines and `sync.Map`. Each transition is one atomic step. The source
  calls the callback before deleting the entry, so a dispatch and a sweep that race on one
  id could both fire it. The single-fire results hold for sequential interleavings only.
- JSON marshal and unmarshal, `uuid.New()`, `time.Ticker` and logging are library calls.
  They are abstracted as the `encode`/`decode` parameters, a freshness precondition and an
  integer clock.
- `Client.Register`: requires the new id to be absent from the table. The source would
  overwrite an entry on a repeated id, but `uuid.New()` makes that practically impossible.
- `Client.SendRequest`: requires the fresh id, for the same reason as `Register`.
- `Client.Sweep`: compares integer ticks, not float seconds. Sub-tick differences that the
  float comparison would see are not modelled.
- `Runs.FiresByDeadline`: assumes that a tick past the deadline happens. The source's timer
  ticks every second, but the model does not force ticks to occur.
- `client_test.go`: it needs a live server and blocks forever, so it states no checkable
  behaviour.
