# Multi-backend container storage: a Dafny model of the dispatcher

This project models the storage dispatcher `Storage` and the container envelope it moves
between backends. It is written in Dafny.

`Storage` holds an ordered list of backends and a default endpoint index.
- **Reads** are answered by the default backend alone.
- **Writes and deletes** go to the default backend first. When asked, they are then
  "reflected" to the other backends one at a time, in ascending index order. Reflection
  stops at the first failure and rolls nothing back.

The model is functional. Every dispatcher operation is a function of the dispatcher's state
that returns three things:
- its result;
- the new state of every backend;
- the trace of backend calls it made, in order.

The files are:
- `containers.dfy` (`Containers`): the envelope `Container`. Its id and payload are
  arbitrary byte strings, and its `ContainerKind` has exactly the three variants `Data`,
  `Link` and `Bundle`. It also holds the derived `Clone`.
- `failures.dfy` (`Failures`): an abstract `Error` (a missing default endpoint, an absent
  id, or any other failure with a code) and the `Result`/`Option` wrappers.
- `containering.dfy` (`Containering`): the conversion capability of a storable domain
  type, as a record of fallible functions (`Codec<T>`). It covers `purpose` and the
  three-way outcome of a validity check. It also states the round-trip law `RoundTrips`.
  The source promises no such law, so the model uses it only as an explicit assumption.
- `backends.dfy` (`Backends`): the backend capability. It is met by an in-memory
  reference backend whose store is a sequence of containers. A failure oracle
  (`faults: map<Call, nat>`) names the calls that fail, and a `MissingPolicy` records
  what the backend does with an absent id. `Handle` is any call with its answer reduced
  to success or failure, which is how the reflect loop sees a backend.
- `storage.dfy` (`Dispatcher`): the dispatcher and its operations.
  - `Reflect` is the shared write discipline of the `storage_reflect!` macro.
  - `FanOut` is its reflect loop.
  - `Run` is an independent plan executor. It calls a given list of endpoints in order and
    stops at the first failure.
- `storage_properties.dfy` (`DispatcherProperties`): lemmas that relate the operations.
  - The reflect loop equals the plan executor over the plan "default first, then every
    index but the skipped one, upwards".
  - Which endpoints a write or delete reaches, and how often.
  - What a failure leaves behind: no rollback.
  - That reads see only the default endpoint.
  - Write-then-read and write-then-delete scenarios with two backends.

What the code does at the points that are easy to misread:
- The primary of a write is always the default endpoint. The `get_endpoint!` macro looks up
  `default_endpoint` and nothing else (storage/src/storage.rs:29-36). The caller's
  `endpoint_index` never picks the primary; it only decides which endpoint the reflect
  loop skips (storage/src/storage.rs:18, 65, 76). So with reflection on and an explicit
  index other than the default, the named endpoint is never written and the default is
  written twice.
- An explicit index is never checked against the endpoint list: it is only compared with
  loop indices (storage/src/storage.rs:18), so an out-of-range index skips nothing.
- The read and delete operations take no endpoint index and always use the default
  endpoint (storage/src/storage.rs:94-175).
- `delete_containers` fans out only when the deleted containers are asked for
  (storage/src/storage.rs:160). It has no reflect flag of its own.
- A domain type's `purpose` defaults to the string `"None"` (storage/src/container.rs:19-21).

## Model

| member | source | states |
|---|---|---|
| `Containers.Clone` | storage/src/container.rs:10-15 | A cloned container has the same id, kind and data as the original, so every endpoint is handed an identical copy. |
| `Containering.Purpose` | storage/src/container.rs:19-21 | A domain type's purpose is "None" unless the type gives its own, which is then returned. |
| `Containering.Validate` | storage/src/container.rs:25-27 | A validity check has three distinguishable outcomes: judged valid, judged not valid (`Ok(false)`), and not evaluable (an error). Each holds exactly when the type's check answers that way. |
| `Backends.Write` | storage/src/storage.rs:183 | Reference backend. A faulting write fails with its fault and changes nothing. Otherwise the write succeeds, the id maps to the container, and every other id keeps its container. |
| `Backends.WriteBatch` | storage/src/storage.rs:184 | Reference backend. A faulting batch write changes nothing. Otherwise, for each id the batch's last container with that id is stored, and ids outside the batch keep their containers. |
| `Backends.ContainerIds` | storage/src/storage.rs:186 | Reference backend. Listing fails exactly when it faults; otherwise it returns the stored ids, in store order. |
| `Backends.Exists` | storage/src/storage.rs:187 | Reference backend. Unless it faults, the answer is true exactly when some stored container has the id. |
| `Backends.Read` | storage/src/storage.rs:189 | Reference backend. Unless it faults, a read returns a stored container with the requested id. It fails with `NotFound` exactly when no stored container has that id. |
| `Backends.ReadBatch` | storage/src/storage.rs:190 | Reference backend. Every container returned is stored and was requested. A lenient backend returns every stored requested container. A strict backend succeeds exactly when all ids are present and then answers them in request order; otherwise it fails with `NotFound` naming a requested id it lacks. |
| `Backends.ReadEverything` | storage/src/storage.rs:191 | Reference backend. Unless it faults, the answer holds exactly the stored containers. |
| `Backends.Delete` | storage/src/storage.rs:193-197 | Reference backend. On success the id is absent, every other id keeps its container, and the removed container is returned only when asked for. A failure changes nothing. A non-faulting call fails exactly when a strict backend lacks the id, and then with `NotFound` for that id. |
| `Backends.DeleteBatch` | storage/src/storage.rs:198-202 | Reference backend. On success every listed id is absent, every other id is kept, and containers are returned exactly when asked for. A non-faulting call fails exactly when a strict backend lacks one of the ids, and then with `NotFound` naming a requested id it lacks. A failure changes nothing. |
| `Backends.DeleteBatchReturnsStored` | storage/src/storage.rs:198-202 | Reference backend. The containers a batch delete hands back are the stored containers of the requested ids it holds, one per held request, in request order. Unless that read faults, they are exactly what a batch read of the same ids would have answered. |
| `Backends.ReadBatchKeepsOrder` | storage/src/storage.rs:190 | Reference backend. A successful batch read answers, in request order, the stored container of every requested id the store holds, for a lenient backend as for a strict one. |
| `Backends.Handle` | storage/src/storage.rs:180-203 | Any backend call as the dispatcher's loop sees it. A faulting call fails with its fault and changes nothing. A write fails only by faulting. Reads and failed calls change nothing. Only stored containers ever change. A successful write or delete leaves its effect behind. |
| `Dispatcher.Names` | storage/src/storage.rs:51-56 | The names are the endpoints' names, one per endpoint, in construction order. |
| `Dispatcher.AscendingIncreases` | storage/src/storage.rs:15-20 | The reflect loop visits endpoint indices in strictly increasing order. |
| `Dispatcher.FanOut` | storage/src/storage.rs:15-23 | The reflect loop calls only endpoints from its start index up that are not the skipped one, each with the same call. It never changes the skipped endpoint, any endpoint below its start, or anything but stored containers. |
| `Dispatcher.TargetIndex` | storage/src/storage.rs:65-76 | The skip index is the caller's `endpoint_index` when one is given and the default endpoint otherwise. |
| `Dispatcher.Reflect` | storage/src/storage.rs:5-36 | With the default index out of range, the call fails with nothing called or changed. Otherwise the default endpoint is called first. Later calls never go to the skipped index. Without reflection at most one call is made and no other endpoint changes. |
| `Dispatcher.WriteContainer` | storage/src/storage.rs:58-68 | An encoding failure is returned with nothing called or changed. With the default index out of range the write fails and changes nothing. Otherwise the encoded container is written to the default endpoint first. Without reflection no other endpoint changes, whatever index is passed. |
| `Dispatcher.EncodeAll` | storage/src/storage.rs:79-83 | Encoding a batch succeeds exactly when every item encodes, giving their containers in order. A failure is the first failing item's error. |
| `Dispatcher.WriteContainers` | storage/src/storage.rs:70-92 | Any encoding failure is returned before any endpoint is called or changed. Otherwise the whole batch goes in one call per endpoint, the default first. Without reflection no other endpoint changes. |
| `Dispatcher.GetContainerIds` | storage/src/storage.rs:94-98 | Only the default endpoint is called and nothing changes. The answer is the default endpoint's listing, and so its ids in store order; an unresolvable default fails with no call. |
| `Dispatcher.ExistsContainer` | storage/src/storage.rs:100-104 | Only the default endpoint is called and nothing changes. The answer, success or failure, is the default endpoint's; on success it is whether that endpoint holds the id. |
| `Dispatcher.ReadContainer` | storage/src/storage.rs:106-110 | Only the default endpoint is called and nothing changes. The answer, success or failure, is the default endpoint's; a container returned is its container for that id. |
| `Dispatcher.ReadContainers` | storage/src/storage.rs:112-116 | Only the default endpoint is called and nothing changes. The answer, success or failure, is the default endpoint's batch read; every container returned is held there and was requested. |
| `Dispatcher.ReadAllContainers` | storage/src/storage.rs:118-122 | Only the default endpoint is called and nothing changes. The answer, success or failure, is the default endpoint's; on success it holds exactly that endpoint's containers. |
| `Dispatcher.DeleteContainer` | storage/src/storage.rs:124-148 | The default endpoint is called first with the caller's return flag. Every later call goes to another endpoint with the flag cleared. Without reflection the answer, success or failure, is exactly the default endpoint's delete and that endpoint's new state is the only change. A failing default call is the answer and changes nothing, reflected or not. On success the id is gone from the default endpoint and the answer is the default endpoint's. |
| `Dispatcher.DeleteContainers` | storage/src/storage.rs:150-175 | The default endpoint is called first. Later calls go to other endpoints with the flag cleared. Without the return flag the answer, success or failure, is exactly the default endpoint's batch delete and that endpoint's new state is the only change. A failing default call is the answer and changes nothing. On success the ids are gone from the default, containers are returned exactly when asked for, and the answer is the default endpoint's batch answer. |
| `DispatcherProperties.FanOutIsRun` | storage/src/storage.rs:15-23 | The reflect loop equals the plan executor run over the ascending indices with the skipped one left out. |
| `DispatcherProperties.ReflectRunsPlan` | storage/src/storage.rs:5-27 | The write discipline equals the plan executor run over the plan: the default, then (when reflecting) every index but the skipped one, upwards. |
| `DispatcherProperties.RunDelivers` | storage/src/storage.rs:9-22 | Every call of a sweep that went through leaves its effect, and no later call undoes it. Endpoints outside the delivered calls are exactly as before, so nothing is rolled back. |
| `DispatcherProperties.RunWriteSucceeds` | storage/src/storage.rs:9-22 | A sweep of a write succeeds exactly when none of its targets faults on the write. |
| `DispatcherProperties.RunWriteFails` | storage/src/storage.rs:9-22 | A failed sweep of a write ends at a target that faults, and that fault is the answer. |
| `DispatcherProperties.RunWritePassesEarlier` | storage/src/storage.rs:9-22 | No target a write sweep called before its last call faults on the write, so a failed sweep stops at the first faulting target. |
| `DispatcherProperties.RunFirstFailure` | storage/src/storage.rs:15-22 | A sweep over distinct targets meets each endpoint as it was at the start. Every call that went through succeeds on that state, and a failed sweep answers what its last target answers there. |
| `DispatcherProperties.PlanVisitsEachOnce` | storage/src/storage.rs:15-23 | When the skipped index is the default, the plan calls every endpoint exactly once and nothing outside the list. |
| `DispatcherProperties.PlanWithOtherIndex` | storage/src/storage.rs:15-22 | When the skipped index is another endpoint, the plan never calls it, calls the default twice, and calls every other endpoint once. |
| `DispatcherProperties.PlanWithOutOfRangeIndex` | storage/src/storage.rs:15-22 | When the skipped index names no endpoint, the plan skips nothing. It calls the default twice, every other endpoint once, and nothing beyond the endpoints. |
| `DispatcherProperties.ReflectWriteFollowsPlan` | storage/src/storage.rs:5-27 | A write calls the plan's first endpoints in order, all of them on success. It succeeds exactly when no planned endpoint faults. Otherwise it stops at the first planned endpoint that faults, and that fault is the answer. Every call that went through keeps the write, and every other endpoint is untouched. |
| `DispatcherProperties.WriteWithoutReflect` | storage/src/storage.rs:58-68 | Without reflection, a write calls the default endpoint alone, whatever index is passed. It succeeds exactly when that endpoint does not fault, then stores the container there, and no other endpoint changes. |
| `DispatcherProperties.WriteReflectReachesAll` | storage/src/storage.rs:58-68 | A reflected write without an explicit index calls the default, then the others upwards. It succeeds exactly when no endpoint faults, and then every endpoint has been called exactly once and holds the container. |
| `DispatcherProperties.WriteReflectSkipsExplicitIndex` | storage/src/storage.rs:58-68 | A reflected write with an explicit index other than the default never calls that endpoint, which keeps its state. On success it has called the default twice. |
| `DispatcherProperties.WriteShortCircuit` | storage/src/storage.rs:5-27 | A failed write stopped at the first endpoint of the plan that faults, and its fault is the answer. No endpoint called before it faults. The primary and every endpoint called before keep the container, and nothing after it was called or changed. |
| `DispatcherProperties.WriteContainersFollowsPlan` | storage/src/storage.rs:70-92 | A batch with any item that fails to encode calls nothing and changes nothing. Otherwise the batch follows the write plan with one call per endpoint, succeeding exactly when no planned endpoint faults. |
| `DispatcherProperties.ReadsComeFromDefault` | storage/src/storage.rs:94-122 | Two dispatchers whose default endpoints are in the same state answer every read alike, whatever their other endpoints hold. |
| `DispatcherProperties.WriteThenRead` | storage/src/storage.rs:58-110 | After a successful write, reading the id from the dispatcher returns the written container and reports it as existing, unless the default's read faults. Decoding it gives the object back when the round-trip law holds. |
| `DispatcherProperties.WriteThenListAll` | storage/src/storage.rs:58-122 | After a successful write, the dispatcher lists the container's id and includes the container in a full read, unless the default endpoint faults on those calls. |
| `DispatcherProperties.ReadContainersKeepsOrder` | storage/src/storage.rs:112-116 | A successful batch read through the dispatcher answers, in request order, the default endpoint's stored container for every requested id it holds. |
| `DispatcherProperties.DeleteRunsPlan` | storage/src/storage.rs:124-148 | A reflected delete is the default endpoint's delete followed by the plan executor over every other endpoint, upwards, with the return flag cleared. |
| `DispatcherProperties.DeleteFollowsPlan` | storage/src/storage.rs:124-148 | A reflected delete calls the default first with the caller's flag, then the other endpoints upwards with the flag cleared. A failing default call is the answer and changes nothing. Otherwise each reflected call that went through succeeds on its endpoint as that endpoint stood before the delete, and a failure is the error that the last endpoint reached answers on its earlier state. The id is gone from the default and from every endpoint reached before a failure, and the endpoints not reached are unchanged (no rollback). On success every endpoint was called, the id is gone from all of them, and the answer is the default's container when asked for. |
| `DispatcherProperties.DeleteManyRunsPlan` | storage/src/storage.rs:150-175 | A batch delete asked for the containers is the default endpoint's batch delete followed by the plan executor over every other endpoint, upwards, with the return flag cleared. |
| `DispatcherProperties.DeleteManyFollowsPlan` | storage/src/storage.rs:150-175 | A batch delete asked for the containers has the same outcome shape as a reflected delete: default first, the others upwards, every endpoint before the last one accepting the delete, a failure being the last endpoint's error, no rollback. On success every endpoint lacks the ids and the answer is the default endpoint's batch answer. |
| `DispatcherProperties.DeleteReturnFlagOnlyShapesAnswer` | storage/src/storage.rs:124-148 | For a default backend whose failures do not depend on the flag, the return flag of a single delete changes only whether the container is handed back, never what is deleted or where. |
| `DispatcherProperties.BatchDeleteFanOutFollowsReturnFlag` | storage/src/storage.rs:150-175 | A batch delete without the return flag calls the default endpoint alone and leaves the others untouched. With the flag, a success removes the ids from every endpoint. |
| `DispatcherProperties.TwoBackendRoundTrip` | storage/src/storage.rs:58-148 | With two healthy backends and an object that round-trips, a reflected write makes it readable and decodable from both. A reflected delete then returns it and leaves it absent from both. |
| `DispatcherProperties.SecondDeleteSucceeds` | storage/src/storage.rs:137-147 | With two healthy backends that both hold the id, a reflected delete succeeds. |
| `DispatcherProperties.TwoBackendReplicaFailure` | storage/src/storage.rs:5-27 | When the second of two backends faults on the write, a reflected write answers with that fault. The first backend still holds the container, and the second is unchanged. |

## Left out

- `async`/`await` and `#[async_trait]`: every call is awaited in sequence, so calls are
  modelled as ordinary sequential function applications. Concurrent callers are not
  modelled, since the dispatcher adds no synchronisation of its own.
- The text of `eyre::Report` errors: errors are the abstract `Error` values
  `EndpointMissing`, `NotFound` and `Failed(code)`.
- `Debug` and `serde` derives, and `Box<dyn Storaging>` trait objects. These are plumbing.
  A backend is a value of the `Backend` datatype.
- Concrete backends (filesystem, database, object store) are not part of this model. They
  are replaced by one in-memory reference backend. Its behaviour on absent ids is a
  per-backend `MissingPolicy` chosen by the model, because the source leaves it to each
  backend. A failing call of the reference backend changes nothing, so partial effects
  inside one failing backend call are not modelled.
- Which calls fail is given by a failure oracle (`faults`) fixed per backend, not by I/O.
  The oracle is keyed by the full call, so a write and a delete of the same id can fail
  independently. Because it does not change over time, a repeated identical call on one
  backend answers alike: in particular, the second write of the default endpoint that a
  reflected write with an explicit non-default index makes (storage/src/storage.rs:15-22)
  succeeds whenever the first did, although in the code it is a separate call that could
  fail after the first one landed.
- `Dispatcher.Run` and `Dispatcher.FanOut` are written for any serve function that keeps
  `Backends.Handle`'s promises (`Faithful`), not only for `Handle`. The dispatcher always
  instantiates them with `Handle`.
- `delete_containers` takes the dispatcher by value and consumes it. In the model it
  returns the new state like every other operation.
- `Containers.Clone`: in a value model a clone is the value itself. Ownership and
  allocation of the copy are not modelled.
- The configuration that decides which backends exist and which is the default is outside
  this model. A `Storage` value is given.
