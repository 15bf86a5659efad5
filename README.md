# Heartbeat registry and monitor, modelled in Dafny

This project models the core of a small liveness-tracking service. The
service has three parts:

- **Registry.** Clients register processes. Each process is a logical unit of
  work with an id. Clients renew its heartbeat and ask which processes are
  alive.
- **Monitor.** A background worker looks at the registry on every tick. It
  renews the heartbeat of every alive process flagged keep-alive.
- **Liveness.** A record is alive while no more than its expiration window has
  passed since its last heartbeat.

Files:

- `process_status.dfy` (module `Status`) models the process record and its
  derived `IsAlive`. It holds the lemmas about the inclusive boundary,
  monotonicity in time and in the heartbeat, and which fields liveness
  depends on.
- `heartbeat_registry.dfy` (module `Registry`) models the generated ids and
  the three dictionary updates as functions on a `map<string, ProcessStatus>`:
  - `Created` (insert-if-absent);
  - `Renewed` (insert-or-update; an unknown id becomes a short-lived record);
  - `Removed` (remove-if-present).

  The class `HeartbeatRegistry` holds the map in a field and changes it in
  place. Its methods are proved against those functions, and each keeps the
  invariant `Valid()`: every record is filed under its own id and carries the
  configured window. `GetStatuses` and `GetActiveStatuses` are functions that
  read the field.
- `process_monitor_worker.dfy` (module `Monitor`) models one tick as `Ticked`
  and a run of ticks as `RunTicks`. The class `ProcessMonitorWorker` performs
  a tick as the source does. It takes the alive records from `GetStatuses`,
  walks that snapshot and calls `RegisterHeartbeat` for each keep-alive record.
  The keep-alive theorem `KeepAliveNeverExpires` states that a keep-alive
  record alive at the first tick stays alive at every tick, provided no gap
  between ticks exceeds its window.
- `scenarios.dfy` (module `Scenarios`) holds two client runs proved from the
  contracts alone. In the first, a short-lived process expires, stays listed,
  and is gone after removal. In the second, a long-lived process is kept alive
  by a monitor that ticks every second.

Time is a whole number of seconds passed in as `now`. The random part of a
generated id is passed in as a four-character lower-case hexadecimal
fragment, which is what the first four characters of a GUID's text form are.

Two points about the source shape what the model claims:

- **How often the monitor ticks.** The worker's loop waits with
  `Task.Delay(MonitorIntervalInSeconds)` only after a pass has finished its
  renewals (Services/ProcessMonitorWorker.cs:57), and the delay is only a
  minimum. Two consecutive passes are therefore at least `interval` apart,
  and further apart by the time a pass and the wake-up take. The next pass
  filters with the comparison `elapsed <= window` (Models/ProcessStatus.cs:8)
  on a clock finer than a second. The model counts whole seconds and takes the
  tick times as given. `KeepAliveUnderDelay` names the extra time as an
  `overhead` and needs `interval + overhead <= window`. Any real pass takes
  some time, so the overhead is positive, and the interval must then be
  strictly smaller than the window.
- **What the list operations return.** `GetStatuses` returns the stored
  objects themselves (Services/HeartbeatRegistry.cs:45), not copies. A later
  renewal assigns their `LastHeartbeat` in place
  (Services/HeartbeatRegistry.cs:36). The model returns values (see "Left out").

## Model

| member | source | states |
|---|---|---|
| `Status.IsAlive` | Models/ProcessStatus.cs:8 | a record is alive at `now` exactly when `now` is no later than its deadline, the last heartbeat plus the window (elapsed ≤ window) |
| `Status.InclusiveBoundary` | Models/ProcessStatus.cs:8 | exactly E seconds after the heartbeat the record is alive; E + 1 seconds after it is not |
| `Status.ExpiredAfterWindow` | Models/ProcessStatus.cs:8 | strictly more than E seconds since the heartbeat means not alive |
| `Status.AliveAtHeartbeat` | Models/ProcessStatus.cs:8 | with a non-negative window a record is alive at its heartbeat instant |
| `Status.AliveEarlier` | Models/ProcessStatus.cs:8 | liveness is downward closed in time: alive at `t` implies alive at every `t' <= t` |
| `Status.LaterHeartbeatStaysAlive` | Models/ProcessStatus.cs:8 | moving the heartbeat later never makes an alive record dead at the same instant |
| `Status.AliveIgnoresIdAndFlag` | Models/ProcessStatus.cs:5-9 | liveness does not depend on the process id or the keep-alive flag |
| `Registry.ProcessIdFor` | Services/HeartbeatRegistry.cs:24 | a generated id is the class prefix (`LongLivedProcess_` when keep-alive, `ShortLivedProcess_` otherwise) followed by the random fragment, and nothing else |
| `Registry.ProcessIdShape` | Services/HeartbeatRegistry.cs:24 | with a 4-character GUID fragment, a long-lived id has 21 characters and a short-lived one 22, and the last four are hexadecimal digits |
| `Registry.ClassLetter` | Services/HeartbeatRegistry.cs:24 | a long-lived id starts with `L`, a short-lived one with `S` |
| `Registry.ProcessIdInjective` | Services/HeartbeatRegistry.cs:24 | equal generated ids come from the same class and the same fragment |
| `Registry.Created` | Services/HeartbeatRegistry.cs:25 | insert-if-absent: the key set gains the id; every existing record is unchanged (so a taken id leaves the map as it was); a fresh id gets a record with heartbeat `now`, the given flag and the configured window |
| `Registry.Renewed` | Services/HeartbeatRegistry.cs:32-38 | insert-or-update: the key set gains the id; other records are unchanged; the id's heartbeat becomes `now`; a present record keeps its id, flag and window; an unknown id becomes a record with flag false and the configured window |
| `Registry.Removed` | Services/HeartbeatRegistry.cs:55 | remove-if-present: the id is absent afterwards; every other record is unchanged; removing an absent id changes nothing |
| `Registry.OneRecordPerId` | Services/HeartbeatRegistry.cs:45 | when every record is filed under its own id, there are exactly as many stored records as ids |
| `Registry.CreatedIsAlive` | Services/HeartbeatRegistry.cs:25 | a freshly created record is alive at its creation instant (non-negative window) |
| `Registry.RenewedIsAlive` | Services/HeartbeatRegistry.cs:32-38 | after a renewal the id is present and alive at the renewal instant (non-negative configured window) |
| `Registry.RenewalIsMonotone` | Services/HeartbeatRegistry.cs:35-37 | with a clock that does not run backwards, a renewal never moves a heartbeat backwards |
| `Registry.RemoveIsIdempotent` | Services/HeartbeatRegistry.cs:55 | removing an id twice is the same as removing it once |
| `Registry.RemovedNeverListed` | Services/HeartbeatRegistry.cs:53-56 | after removal no stored record carries the removed id |
| `Registry.RenewUnknownListsOne` | Services/HeartbeatRegistry.cs:32-34 | renewing an unknown id leaves exactly one stored record with that id, short-lived, with heartbeat `now`, and alive at `now` |
| `Registry.OperationsKeepWellFormed` | Services/HeartbeatRegistry.cs:22-56 | create, renew and remove keep every record filed under its own id and carrying the configured window |
| `Registry.HeartbeatRegistry.constructor` | Services/HeartbeatRegistry.cs:12-20 | a new registry is empty and keeps the configured window |
| `Registry.HeartbeatRegistry.CreateProcess` | Services/HeartbeatRegistry.cs:22-28 | returns the generated id (also when it was already taken); the map becomes `Created(old map, id, …)`; the invariant is kept |
| `Registry.HeartbeatRegistry.RegisterHeartbeat` | Services/HeartbeatRegistry.cs:30-41 | the map becomes `Renewed(old map, id, now, window)`; the invariant is kept |
| `Registry.HeartbeatRegistry.GetStatuses` | Services/HeartbeatRegistry.cs:43-46 | every stored record, expired ones included, is returned; every returned record is the one stored under its id; one record per id |
| `Registry.HeartbeatRegistry.GetActiveStatuses` | Services/HeartbeatRegistry.cs:48-51 | a subset of `GetStatuses`, holding exactly those of its records that are alive at `now` |
| `Registry.HeartbeatRegistry.RemoveHeartbeat` | Services/HeartbeatRegistry.cs:53-56 | the map becomes `Removed(old map, id)`; the invariant is kept |
| `Monitor.Ticked` | Services/ProcessMonitorWorker.cs:34-49 | a tick adds and removes no ids; it never changes an id, a flag or a window; records not alive or not keep-alive are unchanged, so an expired record is never revived; alive keep-alive records get heartbeat `now` |
| `Monitor.RunTicks` | Services/ProcessMonitorWorker.cs:31-58 | any run of ticks keeps the key set, every id, flag and window, and leaves records with flag false unchanged |
| `Monitor.TickKeepsLivenessAtTick` | Services/ProcessMonitorWorker.cs:34-47 | at the tick instant a record is alive after the tick exactly when it was alive before it |
| `Monitor.TickRenewsDue` | Services/ProcessMonitorWorker.cs:34-47 | after a tick, every keep-alive record that was alive at the tick has the tick as its heartbeat and is alive |
| `Monitor.TickKeepsWellFormed` | Services/ProcessMonitorWorker.cs:47 | a tick keeps every record filed under its own id with the configured window |
| `Monitor.AliveAtEveryTick` | Services/ProcessMonitorWorker.cs:31-57 | induction step: a keep-alive record alive at the first tick is alive when the monitor looks at it at tick `k`, given gaps no larger than its window |
| `Monitor.KeepAliveNeverExpires` | Services/ProcessMonitorWorker.cs:31-57 | keep-alive theorem: with every gap between consecutive ticks at most the record's window, a keep-alive record alive at the first tick is alive at every tick, and its heartbeat is the last tick afterwards |
| `Monitor.KeepAliveUnderDelay` | Services/ProcessMonitorWorker.cs:31-57 | with each gap between passes at least `interval` (the delay) and at most `interval + overhead`, and `interval + overhead` no larger than the window, a keep-alive record alive at the first pass is alive at every pass |
| `Monitor.AliveBetweenTicks` | Services/ProcessMonitorWorker.cs:31-57 | under the keep-alive theorem's conditions, after the pass at `ticks[k]` the record is alive at every instant up to the next pass, not only at pass instants |
| `Monitor.PartlyTickedStep` | Services/ProcessMonitorWorker.cs:39-48 | handling one alive record of the snapshot renews it through `RegisterHeartbeat` exactly when it is flagged keep-alive, and changes nothing else |
| `Monitor.ProcessMonitorWorker.constructor` | Services/ProcessMonitorWorker.cs:20-25 | the worker drives the registry it is given |
| `Monitor.ProcessMonitorWorker.Tick` | Services/ProcessMonitorWorker.cs:33-56 | the snapshot walk with per-record `RegisterHeartbeat` leaves the map equal to `Ticked(old map, now)` and keeps the registry invariant |
| `Monitor.ProcessMonitorWorker.Run` | Services/ProcessMonitorWorker.cs:31-58 | the worker loop over the given tick times leaves the map equal to `RunTicks(old map, ticks)` |

## Left out

- HTTP endpoints, Swagger and dependency-injection wiring (Program.cs): a thin adapter with no logic of its own.
- Concurrency. `ConcurrentDictionary` atomicity, parallel callers and the worker's thread are not modelled; every operation is one sequential step. This leaves out the race in which a monitor renewal re-creates an id that was removed concurrently, with flag false.
- Task.Delay, the cancellation token and the worker's start and stop logging. `Run` takes the tick times as a sequence, and the end of the sequence stands for cancellation. The monitor interval setting appears only as the `interval` of `Monitor.PacedBy`.
- Monitor.KeepAliveUnderDelay: takes the time a pass and the wake-up add to the delay as a known bound `overhead`. The source sets no such bound, so the lemma holds only while each pass stays within it.
- Logging. The log calls have no effect on the registry.
- Clock and GUID. `DateTime.UtcNow` becomes the `now` parameter. `Guid.NewGuid()` becomes the `suffix` parameter.
- Monitor.ProcessMonitorWorker.Tick: uses one `now` for the liveness filter and for every renewal. The source reads the clock again in each `IsAlive` and `RegisterHeartbeat`.
- Sub-second time. `TimeSpan.TotalSeconds` is a double in the source. The model counts whole seconds exactly.
- Object aliasing. Records are immutable values. `GetStatuses` and `GetActiveStatuses` return value snapshots as sets, so list order is not modelled (the source leaves it unspecified). The source returns the stored objects, which later renewals mutate in place.
- Configuration/HeartbeatSettings.cs and Services/Interfaces/IHeartbeatRegistry.cs. The expiration window is the registry constructor's parameter. The interface has signatures only.
- Monitor.KeepAliveNeverExpires: covers runs made only of monitor ticks. External create, renew or remove calls between ticks are not part of the theorem, so "no removal in between" holds by construction.
