# wb-l0 order service — a Dafny model

The Go service consumes orders from a Kafka topic, stores them in four
PostgreSQL tables (`orders`, `delivery`, `payment`, `items`), keeps an in-memory
cache of order pointers in front of the database, and serves
`GET /orders/{id}` over HTTP. This project models its core:

- **Consumers** (`consumers.dfy`). `validateOrder` is modelled as a
  specification function plus the early-return method. `ConsumeClaim` is a loop
  over a claim's messages. It decodes each payload into a fresh order and
  validates it. It pushes accepted payloads onto the hand-off channel and marks
  them on the session.
- **TableStore** (`store.dfy`). The four tables are maps keyed by order uid.
  `items` holds each uid's rows in insertion order. The read path is the staged
  lookups of `GetOrderByID`. The write path is one all-or-nothing transaction
  per payload, with the `orders` primary key. The store loop of `StoreOrder`
  stops at the first failure.
- **Repositories** (`repository.dfy`). `OrderRepository` is a class with a `db`
  field and a `cache` field. The cache maps uids to heap cells that stand for
  Go `*entities.Order` pointers. Methods: the constructor with its warm-up
  (`loadAllOrdersToCache`), `GetOrderByID` (cache-aside), and `StoreOrder`
  exactly as written. `StoreOrderFixed` is the corrected loop (see Findings).
- **Services** (`services.dfy`). The two service calls are pure result
  mappings. The DTO conversion is an abstract function.
- **Controllers** (`controllers.dfy`). Path parsing, the
  400/404/500/200 choice, and the port default `8080`.
- **Pipeline** (`pipeline.dfy`). One request end to end: the HTTP status as a
  function of what the repository returns.
- **Findings** (`findings.dfy`). Concrete witnesses for the shared decode
  target of `StoreOrder`, and the general lemmas behind them.

Collaborators the code calls but does not define are parameters:
- `json.Unmarshal` is a `Decoder` that decodes a payload *into* an existing
  value. Fields the payload omits can therefore keep the target's old contents.
- Database failures are a `FaultOracle`: `fault(t, step)` says whether `step`
  fails in the t-th interaction. The t-th listing row is looked up as
  interaction t, and the t-th payload of the store loop is transaction t.
- The DTO conversion is `convert: Order -> Option<D>`, where `None` is its
  error.
- The read query's row list is a `Listing`.
- The environment variable `PORT` is a string argument.

Go's `(*T, error)` results are the `Lookup` datatype: `(v, nil)`, `(nil, nil)`
or `(nil, err)`.

## Model

| member | source | states |
|---|---|---|
| Domain.FirstHit | wbtech/internal/infrastructure/consumers/consumergrouphandler_kafka.go:60-66 | the early-return scan: the first index satisfying the test, with every earlier index failing it; None exactly when no index does |
| Consumers.FirstIncomplete | wbtech/internal/infrastructure/consumers/consumergrouphandler_kafka.go:60-66 | the item reported is the first incomplete one; None exactly when every item is complete |
| Consumers.Validate | wbtech/internal/infrastructure/consumers/consumergrouphandler_kafka.go:43-68 | nil exactly when every checked field is present; each of the five errors exactly when its group is the first incomplete one (order, delivery, payment, empty items, then the smallest incomplete item index) |
| Consumers.ValidateOrder | wbtech/internal/infrastructure/consumers/consumergrouphandler_kafka.go:43-68 | the check sequence with its early returns and item loop returns exactly the verdict of `Validate` |
| Consumers.WithUncheckedFields | wbtech/internal/infrastructure/consumers/consumergrouphandler_kafka.go:43-66 | overwriting the unchecked fields keeps the item count |
| Consumers.UncheckedFieldsIgnored | wbtech/internal/infrastructure/consumers/consumergrouphandler_kafka.go:43-66 | internal signature, request id, delivery cost, goods total, custom fee and item sales never change the verdict |
| Consumers.Values | wbtech/internal/infrastructure/consumers/consumergrouphandler_kafka.go:37 | the payloads pushed are, index by index, the values of the messages |
| Consumers.Screen | wbtech/internal/infrastructure/consumers/consumergrouphandler_kafka.go:27-35 | a payload goes on exactly when it decodes into a fresh order and that order validates |
| Consumers.HandoffSnoc | wbtech/internal/infrastructure/consumers/consumergrouphandler_kafka.go:25-39 | one more message adds its send and mark when it is accepted, and nothing otherwise |
| Consumers.ConsumeClaim | wbtech/internal/infrastructure/consumers/consumergrouphandler_kafka.go:24-41 | the session marks exactly the accepted messages in claim order; the channel receives their payloads; the events are the send/mark trace of the claim |
| Consumers.HandoffAppend | wbtech/internal/infrastructure/consumers/consumergrouphandler_kafka.go:25-39 | handing off a concatenation hands off each part in turn (claim order is kept) |
| Consumers.HandoffMembers | wbtech/internal/infrastructure/consumers/consumergrouphandler_kafka.go:28-38 | a message is handed off and marked exactly when it is in the claim and accepted |
| Consumers.TraceShape | wbtech/internal/infrastructure/consumers/consumergrouphandler_kafka.go:37-38 | the events are Send/Mark pairs, one pair per handed-off message, in order |
| Consumers.MarkFollowsSend | wbtech/internal/infrastructure/consumers/consumergrouphandler_kafka.go:37-38 | every mark comes directly after the send of the same payload |
| TableStore.FirstScanFault | wbtech/internal/infrastructure/repositories/order_repository.go:134-152 | the item row reported is the first whose scan fails; None exactly when no scan fails |
| TableStore.FetchOutcome | wbtech/internal/infrastructure/repositories/order_repository.go:55-158 | `(nil, nil)` exactly when a lookup reaches a missing orders, delivery or payment row; found exactly when all rows are there and no step fails, and then the rows assembled with the item rows in order; any other result is the error of a step that failed |
| TableStore.FirstInsertFault | wbtech/internal/infrastructure/repositories/order_repository.go:238-259 | the item insert reported is the first that fails; None exactly when none does |
| TableStore.WriteTxOutcome | wbtech/internal/infrastructure/repositories/order_repository.go:175-264 | a transaction commits exactly when the uid is new (primary key) and no step fails, and then adds exactly the order's rows; otherwise it rolls back with a database error |
| TableStore.CommitAddsRows | wbtech/internal/infrastructure/repositories/order_repository.go:181-264 | a commit adds one orders, delivery and payment row for the uid and appends its items, leaving every other row as it was |
| TableStore.CommitIsInsert | wbtech/internal/infrastructure/repositories/order_repository.go:181-199 | a commit means the uid was not in `orders` |
| TableStore.InsertKeepsKeyed | wbtech/internal/infrastructure/repositories/order_repository.go:181-194 | every orders row stays stored under its own uid after an insert |
| TableStore.ResumesStart | wbtech/internal/infrastructure/repositories/order_repository.go:167-169 | the loop starts at the first payload with nothing committed |
| TableStore.ResumesCommit | wbtech/internal/infrastructure/repositories/order_repository.go:169-266 | a committed payload moves the loop on by one payload, on the store with its rows inserted |
| TableStore.ResumesFail | wbtech/internal/infrastructure/repositories/order_repository.go:170-264 | a payload that fails to decode or to commit ends the loop: the unmarshal error or that transaction's error, with the store as it was |
| TableStore.ResumesEnd | wbtech/internal/infrastructure/repositories/order_repository.go:269-270 | after the last payload the loop returns nil |
| TableStore.StoreRunNilIffAllCommitted | wbtech/internal/infrastructure/repositories/order_repository.go:167-271 | the loop returns nil exactly when every payload was committed |
| TableStore.StoreRunStopsAtFailure | wbtech/internal/infrastructure/repositories/order_repository.go:170-264 | after the first failure no later payload is processed |
| TableStore.StoreRunKeepsRows | wbtech/internal/infrastructure/repositories/order_repository.go:181-199 | a run never changes or removes an existing orders row |
| TableStore.StoreRunFrame | wbtech/internal/infrastructure/repositories/order_repository.go:181-264 | the rows of a uid that the run does not commit are untouched in all four tables |
| TableStore.StoreRunFreshUids | wbtech/internal/infrastructure/repositories/order_repository.go:181-199 | the committed uids were new to the store and are pairwise distinct |
| TableStore.StoreRunPersists | wbtech/internal/infrastructure/repositories/order_repository.go:181-264 | every committed order has all its rows in the final store |
| Repositories.LoadedBeforeNext | wbtech/internal/infrastructure/repositories/order_repository.go:33-45 | one more listing row adds the uid exactly when that row's lookup succeeds |
| Repositories.WarmedValues | wbtech/internal/infrastructure/repositories/order_repository.go:39-44 | every warmed entry is the order assembled from the store's rows for that uid |
| Repositories.WarmedKeys | wbtech/internal/infrastructure/repositories/order_repository.go:33-45 | a uid is warmed exactly when some listed row names it and that row's lookup finds it |
| Repositories.WarmedSound | wbtech/internal/infrastructure/repositories/order_repository.go:39-44 | on a keyed store every warmed entry holds the order of its own uid |
| Repositories.WarmRowView | wbtech/internal/infrastructure/repositories/order_repository.go:39-44 | a row whose uid is cached leaves the view as it was; a found one is added; failures are skipped |
| Repositories.ViewOfKeys | wbtech/internal/infrastructure/repositories/order_repository.go:266 | caching a sequence of orders gives an entry for each of their uids and no other |
| Repositories.OrderRepository.constructor | wbtech/internal/infrastructure/repositories/order_repository.go:16-23 | the cache holds exactly the warmed orders (nothing when the listing query fails) and, on a keyed store, is sound |
| Repositories.OrderRepository.LoadAllOrdersToCache | wbtech/internal/infrastructure/repositories/order_repository.go:25-47 | the store is untouched; every listed uid whose lookup succeeds is added where no entry was cached; soundness is kept |
| Repositories.OrderRepository.WarmRow | wbtech/internal/infrastructure/repositories/order_repository.go:34-44 | one listing row: the cache view moves from i warmed rows to i+1 |
| Repositories.OrderRepository.GetOrderByID | wbtech/internal/infrastructure/repositories/order_repository.go:49-165 | a hit returns the cached pointer and changes nothing; a miss returns what the read transaction yields; success caches a fresh order under the uid only; not found and errors leave the cache as it was; soundness is kept |
| Repositories.OrderRepository.Transact | wbtech/internal/infrastructure/repositories/order_repository.go:175-264 | the store becomes the committed one, or stays as it was with the transaction's error |
| Repositories.OrderRepository.StoreOrder | wbtech/internal/infrastructure/repositories/order_repository.go:167-271 | the store and error of the loop with one decode target; every committed uid, and only those, points to one fresh variable; each shows whatever the last payload decoded into it |
| Repositories.OrderRepository.Cache | wbtech/internal/infrastructure/repositories/order_repository.go:44 | storing a pointer under a key shows its order there and changes no other key |
| Repositories.OrderRepository.CacheNew | wbtech/internal/infrastructure/repositories/order_repository.go:162 | caching a freshly allocated order shows it under its key and changes no other key |
| Repositories.OrderRepository.StoreOrderFixed | wbtech/internal/infrastructure/repositories/order_repository.go:167-271 | the loop with a fresh decode target per payload: every committed order is shown under its own uid, and soundness is kept |
| Services.GetOrderByID | wbtech/internal/application/services/order_service.go:22-31 | an error is passed on unchanged; not found stays not found (both directions); a result comes back exactly when an entity was found and converted; the only new error is the conversion's |
| Services.StoreOrder | wbtech/internal/application/services/order_service.go:33-41 | the repository's error, or nil, is returned unchanged |
| Controllers.Port | wbtech/internal/presentation/controllers/order_controller.go:18-28 | the PORT value when it is set; 8080 when it is empty; never empty |
| Controllers.ExtractId | wbtech/internal/presentation/controllers/order_controller.go:45-55 | an id exactly when the path is longer than `/orders/` and starts with it; the id is the rest of the path and is never empty |
| Controllers.ExtractIdInverse | wbtech/internal/presentation/controllers/order_controller.go:45-51 | the path built from any non-empty id asks for exactly that id |
| Controllers.Status | wbtech/internal/presentation/controllers/order_controller.go:57-67 | 500 exactly for an error, 404 exactly for a missing order, 200 exactly for an order |
| Controllers.GetOrderByID | wbtech/internal/presentation/controllers/order_controller.go:42-72 | a malformed path gets 400 without a service call; otherwise the service is asked for the extracted id, and no service result ever gets 400 |
| Pipeline.StatusByRepositoryResult | wbtech/internal/presentation/controllers/order_controller.go:57-67 | for a well-formed path: 404 exactly when the repository returned `(nil, nil)`; 500 exactly when it failed or the conversion did; 200 exactly when an order was found and converted |
| Pipeline.MissIsNotFound | wbtech/internal/infrastructure/repositories/order_repository.go:76-126 | on a cache miss, a request gets 404 exactly when the read transaction reaches a missing orders, delivery or payment row |
| Pipeline.HandleRequest | wbtech/internal/presentation/controllers/order_controller.go:42-65 | a malformed path gets 400 and touches nothing; a cached id gets the status of the cached order; otherwise the status of the store's answer |
| Findings.SharedSound | wbtech/internal/infrastructure/repositories/order_repository.go:266 | one variable shown under several keys is sound exactly when every key is that order's uid |
| Findings.ViewOfSound | wbtech/internal/infrastructure/repositories/order_repository.go:162 | caching each order as its own object under its uid keeps every entry under its own uid |
| Findings.SharedTargetWitness | wbtech/internal/infrastructure/repositories/order_repository.go:168-170 | two payloads as written: both commit, yet "o1" shows the "o2" order, and the "o2" row has inherited "o1"'s signature |
| Findings.FreshTargetWitness | wbtech/internal/infrastructure/repositories/order_repository.go:168-170 | the same payloads with a fresh target: each uid shows its own order, and "o2" keeps an empty signature |

## Left out

- Logging, the Kafka client, the HTTP server loop, SQL text, and JSON encoding
  or decoding are left out. They are I/O or library code. Decoding is the
  abstract `Decoder`, and database failures are the `FaultOracle`.
- Concurrency is left out. The consumer and the store loop run in different
  goroutines and meet at the channel. The model takes the channel's contents
  as a finite sequence: `ConsumeClaim` produces the payloads, and `StoreOrder`
  consumes them. A channel that is never closed, blocking, and interleaving
  with HTTP reads of the cache (which the Go map does not guard) are not
  modelled.
- `ConvertOrderToDTO` (order_service.go:43-53) is the abstract `convert`.
  Marshalling and unmarshalling the DTO are not modelled.
- Services.StoreOrder: the model takes the repository's result as its argument.
  It does not model the channel being passed through.
- The read transaction of `GetOrderByID` is never committed or rolled back in
  the source. The model does not track open transactions.
- Item rows are returned in insertion order. The items query has no
  `ORDER BY`, so a real database may return them in another order.
- The encode failure after the 200 header in order_controller.go:68-70 is left
  out. Response bodies are not modelled.
- The `id == ""` check in order_controller.go:52-55 is not a branch of the
  model, because it can never fire. `Controllers.ExtractId` proves the id is
  never empty.
- Controllers.ExtractId works on characters, while Go slices the path by
  bytes. The prefix is ASCII, so cutting after its 8 bytes and after its 8
  characters is the same cut.
- Repositories.OrderRepository.constructor states the cache's view, not which
  pointers it holds.
- The `Access-Control-Allow-Origin` and `Content-Type` headers are left out.

## Findings

| source | as written | input that shows it | evidently intended | confidence | as-written member | corrected member |
|---|---|---|---|---|---|---|
| wbtech/internal/infrastructure/repositories/order_repository.go:168-266 | one `order` variable is declared before the loop. Each payload is unmarshalled into it, and `&order` is cached for every committed uid. So every cached uid shows the last payload's order, and fields a payload omits keep the previous payload's values in the stored rows | payloads `[1]` (uid "o1", signature "sig-1") then `[2]` (uid "o2", no signature), no database failure | each committed uid is cached as its own order, decoded from its own payload alone | not executed | Repositories.OrderRepository.StoreOrder, Findings.SharedTargetWitness | Repositories.OrderRepository.StoreOrderFixed, Findings.FreshTargetWitness |
