# Item gateway: retry loop and status mapping

This project models the request handling in the `rest-service` of an
HTTP-to-gRPC gateway for an "item" resource (`rest-service/rest_service.py`).
Four handlers are covered:

- `POST /items` (`add_item`) validates the JSON body. It then makes up to
  `MAX_RETRIES + 1` = 3 calls of the backend's `AddItem` through a circuit
  breaker. Before each call it reads the breaker's state. When that state is
  not CLOSED, it replaces the global stub `gRPC_methods` with a stub on a new
  channel. After every `grpc.RpcError` it sleeps a delay that starts at 1 and
  doubles.
- `GET /items/` (`get_items`), `PUT /items/{id}` (`update_item`) and
  `DELETE /items/{id}` (`delete_item`) each send one RPC on a channel of their
  own. Each maps the response's `result` flag, or the gRPC status code of a
  raised `RpcError`, to an HTTP reply.

Modules:

- `Items` (`items.dfy`) holds the shared values:
  - the item;
  - the JSON values a body field can hold, with Python's truthiness and
    `isinstance(…, int)` (a `bool` counts as an int);
  - the gRPC status codes;
  - the replies a handler can produce.
- `AddItem` (`add_item.dfy`) holds the retry loop twice over:
  - `Attempts` and `AddItemSpec`, recursive functions that state it;
  - the class `Gateway`, whose fields are the breaker state, the global stub
    and the number of channels opened. Its method `AddItem` runs the `for`
    loop and is proved equal to `AddItemSpec`. Lemmas then state the loop's
    properties about the function.
- `Handlers` (`handlers.dfy`) holds the other three handlers as functions.

The backend, the network and the breaker library are inputs:

- **Calls.** A "call" below is one `breaker.call(gRPC_methods.AddItem, …)`
  invocation (a `Sent` in the model). A call that ends in
  `CircuitBreakerError` may have been refused by the breaker without
  reaching the backend.
- **Backend outcome.** Attempt k of `add_item` is given `env[k]`: how its
  `breaker.call` ends (`Added(item)`, `Rejected`, `RpcErr(code)` or
  `BreakerOpen`) and which state the breaker is in afterwards.
- **Breaker.** No behaviour of the breaker library is assumed: the state
  after each call is whatever the input says.
- **Sleeps.** `asyncio.sleep(delay)` is modelled as appending `delay` to the
  list `sleeps`.
- **Channels.** Each channel is numbered in the order it was opened, and a
  stub is named by its channel's number. Channel 0 is the module-level
  `gRPC_channel`.
- **`None` replies.** A handler that falls off its end returns `None`. In
  the model this is the reply `Nothing`. The web framework serialises it as
  `null` with status 200.

The code has behaviours a reader of a retrying gateway might not expect,
and the model keeps them:

- **Every `RpcError` is retried.** `add_item` retries on every `RpcError`,
  whatever its status code, including NOT_FOUND and ALREADY_EXISTS. It does
  not split transient from application failures.
- **Exhaustion returns `None`.** When all three attempts raise `RpcError`,
  the loop ends without a `return`. The handler answers `None`, not 503, and
  it sleeps after the last attempt as well (1 + 2 + 4 = 7).
- **The breaker state only picks the stub.** The state is read before each
  attempt only to decide whether to replace the stub. Whether the call goes
  ahead is decided inside `breaker.call`, which raises `CircuitBreakerError`
  when it refuses; the handler then answers 503.
- **The CLOSED test depends on the library's state names.** Line 143
  compares `breaker.current_state` with the upper-case string `'CLOSED'`.
  The comment on line 149 says a new channel is created only in HALF_OPEN,
  but the `else` branch (lines 147-152) replaces the stub in every state but
  CLOSED, OPEN included; the model follows the code, reading the test as
  "the state is CLOSED". The breaker
  library is not part of this model, so the model takes no position on the
  names it gives its states. If those names are lower-case, the comparison
  never holds and the stub is replaced before every attempt.
- **Update and delete with `result` false return `None`.** They do not
  answer 404.

## Model

| member | source | states |
|---|---|---|
| `Items.MakeItem` | rest-service/rest_service.py:137 | The request message is built exactly when the name is a string, and then carries the given id and name; any other name makes `Item(...)` raise. |
| `AddItem.BodyValid` | rest-service/rest_service.py:134 | `all([isinstance(id, int), name])`: an integer id with a non-empty string name passes; an absent, null, string, float, list or object id fails, and so does an absent, null, empty, zero or false name. |
| `AddItem.StubForAttempt` | rest-service/rest_service.py:143-152 | With the breaker CLOSED the stub in place and the channel count are kept; in any other state a stub on a newly opened channel, different from the one in place, is used, and the stub invariant is kept. |
| `AddItem.Attempts` | rest-service/rest_service.py:139-179 | The loop from a given attempt makes at most as many `breaker.call` invocations as attempts remain. The reply is 201, 409, 503 or none, and the channel count never decreases. |
| `AddItem.AddItemSpec` | rest-service/rest_service.py:125-179 | The handler: 400 exactly for an invalid body, an uncaught error exactly for a valid body with a non-string name, no `breaker.call` (and no sleep, state unchanged) exactly in those two cases, and at most 3 otherwise. |
| `AddItem.Final` | rest-service/rest_service.py:155-171 | An attempt that does not raise `RpcError` ends the request. `result` true gives 201 with `added_item`, `result` false gives 409, and `CircuitBreakerError` gives 503. Each holds in both directions. |
| `AddItem.Failures` | rest-service/rest_service.py:139-178 | The number of leading attempts that raise `RpcError`. It is exactly the index of the first attempt that does not. |
| `AddItem.AttemptsClosedForm` | rest-service/rest_service.py:139-179 | Closed form of the loop from any attempt with any delay. There are as many sleeps as leading `RpcError`s, and the i-th is delay·2^i. There is one call more than that unless attempts ran out. Every call carries the same request. The reply is decided by the first non-error outcome, or is `None` if there is none. The final breaker state is the one after the last call. |
| `AddItem.InvalidBodyRejected` | rest-service/rest_service.py:134-135 | The reply is 400 exactly when `id` is not an int or `name` is falsy. Such a request makes no call, sleeps nothing and leaves the shared state unchanged. |
| `AddItem.AttemptsBounded` | rest-service/rest_service.py:137-152 | A request makes at most MaxRetries + 1 = 3 `breaker.call` invocations. A valid body with a string name makes at least one (which may be refused by the breaker without reaching the backend), and every call carries the request built from the body. Any other body makes none. |
| `AddItem.Backoff` | rest-service/rest_service.py:174-178 | The i-th sleep is 2^i. There is one sleep per leading `RpcError`, so the sleeps are a prefix of 1, 2, 4. |
| `AddItem.Exhaustion` | rest-service/rest_service.py:139-179 | A valid request gets no reply (`None`, not 503) exactly when all three attempts raise `RpcError`. It then made three calls and slept 1, 2 and 4, 7 in all. |
| `AddItem.FirstNonErrorDecides` | rest-service/rest_service.py:155-171 | If attempt k is the first that does not raise `RpcError`, the request makes exactly k + 1 `breaker.call` invocations (the last may be refused by the breaker without an RPC) and k sleeps. No sleep follows the last call. `CircuitBreakerError` gives 503 at once, `result` true gives 201 echoing `added_item`, and `result` false gives 409 and is not retried. |
| `AddItem.AnyRpcErrorRetried` | rest-service/rest_service.py:174-178 | An `RpcError` with any status code on the first attempt is followed by a sleep of 1 and a second attempt. |
| `AddItem.FailuresAt` | rest-service/rest_service.py:139-178 | If attempt k is the first that does not raise `RpcError`, the count of leading failures is k. |
| `AddItem.StubAfterRun` | rest-service/rest_service.py:143-152 | After the loop, the global stub is the one the last call used. Its channel has been opened, and the channel count never decreases. With no call, the state is untouched. |
| `AddItem.StubAtCall` | rest-service/rest_service.py:143-152 | A call made while the breaker reads CLOSED uses the stub in place. Any other call uses a stub on a channel numbered at or above every channel opened before the loop. |
| `AddItem.FreshStub` | rest-service/rest_service.py:149-152 | A call made while the breaker is not CLOSED uses a channel newer than that of every earlier call in the request. |
| `AddItem.StubReplacement` | rest-service/rest_service.py:143-152 | For the whole handler: with CLOSED, the existing stub is used unchanged. Otherwise a new stub replaces the global one before the call, and it differs from the stub in place before the request and from every stub used earlier. The global stub afterwards is the last one used. |
| `AddItem.ClosedKeepsStub` | rest-service/rest_service.py:143-145 | While the breaker stays CLOSED, every call uses the original stub and no channel is opened. |
| `AddItem.Gateway.AddItem` | rest-service/rest_service.py:125-179 | The imperative loop, with `delay == 2^attempt` as an invariant. Its reply, sleeps, calls and new shared state are those of `AddItemSpec` on the old state, and it keeps the stub invariant. |
| `AddItem.Gateway.constructor` | rest-service/rest_service.py:112-118 | At module load there is one channel, the stub on it, and a CLOSED breaker. |
| `Handlers.LookupErrorStatus` | rest-service/rest_service.py:202-208 | In `get_items` and `delete_item`, an `RpcError` gives 404 exactly for NOT_FOUND and 500 for every other code. |
| `Handlers.UpdateErrorStatus` | rest-service/rest_service.py:230-239 | In `update_item`, an `RpcError` gives 404 exactly for NOT_FOUND, 409 exactly for ALREADY_EXISTS and 500 otherwise. On every other code it agrees with the other two handlers. |
| `Handlers.Kept` | rest-service/rest_service.py:194 | The comprehension's list is no longer than the stream. It is empty exactly when no response has `result` true. |
| `Handlers.KeptMembers` | rest-service/rest_service.py:194 | An item is in the list exactly when some streamed response with `result` true carries it. |
| `Handlers.KeptSplit` | rest-service/rest_service.py:194 | The list keeps stream order: the list for a stream is the list for any prefix followed by the list for the rest. |
| `Handlers.GetItems` | rest-service/rest_service.py:182-208 | The reply is 400, with no RPC, exactly when both `item_id` and `name` are falsy. An error in the stream gives that code's mapped status. An error-free stream gives 404 exactly when no response has `result` true, and otherwise 200 with exactly the kept items. |
| `Handlers.UpdateItem` | rest-service/rest_service.py:211-239 | The reply is 400 exactly for a falsy name, and a truthy non-string name escapes uncaught. Otherwise the request carries the id and new name. An `RpcError` gives its mapped status, `result` true gives 200 with old and new item, and `result` false returns `None`. |
| `Handlers.DeleteItem` | rest-service/rest_service.py:242-261 | The request carries the id alone. An `RpcError` gives its mapped status, `result` true gives 200 with the deleted item, and exactly `result` false returns `None`. |
| `Handlers.ErrorMapping` | rest-service/rest_service.py:202-261 | Across the three handlers, NOT_FOUND is the only code answered 404. ALREADY_EXISTS gives 409 only in `update_item`. Every other code gives 500, and get and delete answer alike. |

## Left out

- The circuit breaker's own state machine (failure count, `fail_max=3`,
  `reset_timeout=6`, the single probe in HALF_OPEN) and its locking. It
  belongs to the `pybreaker` library, whose source is not part of this
  model. The state after each call is an input instead.
- Concurrent requests. The model handles one request at a time. Changes that
  other requests make to the breaker between two attempts are covered,
  because the state after each call is arbitrary. Changes they make to the
  global stub are not.
- The real gRPC channels, stubs and their timeouts (1 s for `add_item`, 2 s
  for the others). These are foreign calls, and each call's outcome is an
  input.
- `asyncio.sleep`. It is recorded as a delay and does not wait.
- JSON parsing of the request body, a body that is not an object, FastAPI
  routing and query-parameter conversion, and `uvicorn` startup. The model
  starts from the already-extracted `id` and `name` fields and the typed
  query parameters.
- The protobuf field checks beyond the type of the name. The `.proto` file
  is not part of this model. An id is not checked against the field's
  integer range, and a boolean id is taken as 0 or 1.
- OpenTelemetry tracing, Prometheus metrics, the `track_metrics`
  middleware and the `/metrics` endpoint: these are observability side
  effects only.
- Logging calls.
- `load_simulator.py`, an endless load-generating HTTP client with no logic
  of the gateway's own.
