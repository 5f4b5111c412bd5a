# netidx-node subscriber core, in Dafny

This project models the core of the Node.js binding for netidx's subscriber.

- **Handles and callback registration.** A JavaScript program subscribes to a path and gets a `DVal` handle. It attaches callbacks with `on_update`. Each callback gets an id from a process-wide counter (`CbId::new`). The handle sends a `RegisterCb` command to the subscriber task. When the handle is dropped, it sends one `UnregisterCb` for every id it holds.
- **The subscriber task.** The task keeps a table `SubId -> (CbId -> callback)`. It changes the table on each command. It walks every batch of `(SubId, Event)` pairs in order and calls every callback registered for the id of an `Update`, passing that update's value.
- **Value functions.** Two pure functions over netidx values are modelled as well:
  - the classification of a value into the ten kinds the host sees (`Value::kind`);
  - the conversion of a value into a JavaScript value (`js_of_value`).

Files:

- `values.dfy`
  - Module `NetValue`: the netidx value, with its fixed-width integer types.
  - Module `ValueKind`: `Value::kind`.
- `host_convert.dfy`, module `HostConvert`: `js_of_value`, into an abstract datatype of JavaScript values. It returns a `Result`.
- `callback_table.dfy`, module `CallbackTable`: the value semantics of the subscriber task.
  - The table and the two commands.
  - The calls one batch produces.
  - The task loop over a sequence of inputs.
  - The lemmas about all of these.
- `subscriber.dfy`, module `Subscriber`: the objects of `src/subscriber.rs` as classes. The `Dispatcher` methods and `DVal.Drop` are proved against the functions and predicates of `CallbackTable`. The other methods state their new state directly, in terms of their own fields. The classes are:
  - the shared callback-id counter;
  - the command sender;
  - the `DVal` handle;
  - the `Subscriber`;
  - `Dispatcher`, the state of the subscriber task.

Hash-map and hash-set iteration has no fixed order. This covers the callbacks of one id during fan-out and the ids a handle holds when it is dropped. The methods pick the next element with `:|`. The specifications (`CallsEach`, `UnregistersEach`, `FanOut`) therefore promise:

- exactly one call or command per element;
- the order across events and batches;
- no order among the elements of one hash map or set.

Where the prose description of the binding promises more than the code does, the model follows the code:

- `Unsubscribed` events are neither delivered to callbacks nor used to remove table entries.
- Callbacks are not kept in insertion order.
- `subscribe` does not deduplicate paths.

## Model

| member | source | states |
|---|---|---|
| ValueKind.Kind | src/value.rs:30-50 | Every value has exactly one kind. Each kind is produced by exactly its listed variants, in both directions: the eight integer variants give `Integer`; `F32`/`F64` give `Float`; `True`/`False` give `Boolean`; `Ok`/`Error` give `Result`; `Bytes` gives `Buffer`; the rest give the kind of the same name. |
| ValueKind.KindIgnoresPayload | src/value.rs:31-49 | Two values built by the same constructor have the same kind, whatever their payloads. |
| HostConvert.AsI64 | src/util.rs:8 | `u as i64` is the signed 64-bit integer congruent to `u` modulo 2^64. It is negative exactly when `u >= 2^63`. |
| HostConvert.AsU64 | src/util.rs:8 | The reverse reading is congruent to its input modulo 2^64. |
| HostConvert.AsI64RoundTrip | src/util.rs:8 | The two readings are inverse bijections between u64 and i64. |
| HostConvert.ToJs | src/util.rs:4-41 | Every failure, however deeply nested, is `InvalidArg("unimplemented value conversion")`. A successful conversion of an array is a host array with as many elements as the value. |
| HostConvert.ToJsAll | src/util.rs:28-34 | On success the array has as many elements as the input, and element i is the conversion of input i. On failure the error is that of an element that fails, and every element before it converts. |
| HostConvert.ToJsFailsIffHoldsTime | src/util.rs:28-39 | Conversion fails exactly when the value is a `Duration` or a `DateTime`, or is an array that holds one at any depth. |
| HostConvert.ToJsAllFailsIffAnyHoldsTime | src/util.rs:30-32 | The element loop fails exactly when some element holds a time value. |
| HostConvert.ScalarConversions | src/util.rs:6-27 | Each scalar becomes its JavaScript value with the same payload: `U32`/`V32` a uint32, `I32`/`Z32` an int32, `U64`/`V64` an int64 (`u - 2^64` when `u >= 2^63`), `I64`/`Z64` an unchanged int64, `True`/`False` the booleans, `Null` null, `Ok` the symbol "Ok", `Error(e)` an object with error `e`, `String` a string, `Bytes` a buffer with the same length and contents. |
| HostConvert.KindPredictsShape | src/util.rs:5-40 | A successful conversion has the JavaScript shape that matches the value's kind. Every kind other than `Duration`, `DateTime` and `Array` always converts. `Duration` and `DateTime` never do. |
| CallbackTable.Register | src/subscriber.rs:117-119 | After `RegisterCb(id, cbid, cb)`, `cbid` is registered under `id` with `cb`. Every other pair keeps its registration and its callback, and nothing else becomes registered. The table stays free of empty entries. |
| CallbackTable.Unregister | src/subscriber.rs:120-128 | After `UnregisterCb(id, cbid)`, exactly that pair is gone, and every other callback is unchanged. An entry left empty is removed, so the table stays free of empty entries. |
| CallbackTable.Apply | src/subscriber.rs:115-129 | A command registers its pair with its callback, or unregisters it. No other pair's registration changes, and the table stays free of empty entries. |
| CallbackTable.ApplyAllKeepsNoEmptyEntries | src/subscriber.rs:117-128 | No sequence of commands leaves a subscription id mapped to an empty callback map. |
| CallbackTable.NoEmptyEntriesFromStart | src/subscriber.rs:101-128 | This holds in particular from the empty table the task starts with. |
| CallbackTable.RegisterLeavesOthers | src/subscriber.rs:117-119 | Registering under `id` leaves the entry of every other id as it was, present or absent. |
| CallbackTable.UnregisterUnknownIsNoop | src/subscriber.rs:120-128 | Unregistering an unknown id, or an unknown callback id, leaves the table unchanged. |
| CallbackTable.UnregisterIdempotent | src/subscriber.rs:120-128 | Unregistering the same pair twice gives the same table as unregistering it once. |
| CallbackTable.RegisterUnregisterRoundTrip | src/subscriber.rs:117-128 | Registering a new callback id and then unregistering it gives back the original table. That includes removing an entry the registration created. |
| CallbackTable.UnregistersEachSnoc | src/subscriber.rs:52-55 | Sending one more `UnregisterCb` for an id not yet unregistered extends the drop commands by that id. |
| CallbackTable.UnregistersEachNames | src/subscriber.rs:49-57 | Every drop command is an `UnregisterCb` for the handle's subscription. It names a callback id exactly when the handle held that id. |
| CallbackTable.ApplyUnregisters | src/subscriber.rs:120-128 | A run of unregister commands leaves a pair registered exactly when it was registered and no command names it. |
| CallbackTable.DropClearsHandle | src/subscriber.rs:49-57 | Once a handle's drop commands are handled, none of its callback ids is registered under its subscription. Every other pair's registration is unchanged. |
| CallbackTable.CallsEachSnoc | src/subscriber.rs:108-110 | Calling one more callback, not yet called, extends a run of calls over a callback map by that callback. |
| CallbackTable.CallsEachStep | src/subscriber.rs:108-110 | Calling one pending callback of `cbs.values()` extends the calls made so far by exactly that callback. |
| CallbackTable.CallsEachLength | src/subscriber.rs:107-111 | One update makes as many calls as its id has callbacks. |
| CallbackTable.CallsEachTargets | src/subscriber.rs:107-111 | Every call goes to a callback registered for the update's id, with the callback registered under that id and the update's value. |
| CallbackTable.CallsEachOnce | src/subscriber.rs:107-111 | Every callback of the id is called exactly once: its call occurs once in the multiset of calls. |
| CallbackTable.EventCallsCount | src/subscriber.rs:106-112 | An event makes as many calls as its id has callbacks if it is an update for a known id, and none otherwise. |
| CallbackTable.FanOutLength | src/subscriber.rs:104-113 | A batch makes exactly as many calls as its updates have callbacks, summed over the batch. |
| CallbackTable.FanOutSnoc | src/subscriber.rs:105-113 | Handling one more event appends that event's calls after those of the events before it. |
| CallbackTable.FanOutPrefix | src/subscriber.rs:105-113 | The calls of a batch's first event, followed by the calls of the rest of the batch, are the calls of the batch. |
| CallbackTable.FanOutSplit | src/subscriber.rs:105-113 | Events are handled in batch order: the calls of `b1 + b2` are the calls of `b1` followed by the calls of `b2`. |
| CallbackTable.SilentBatch | src/subscriber.rs:105-113 | `Unsubscribed` events and updates for ids without callbacks make no calls. A batch made only of those makes none. |
| CallbackTable.CallsComeFromUpdates | src/subscriber.rs:105-113 | Every call of a batch goes to a registered callback, with the callback registered under that pair. The batch holds an update for the call's id with the call's value. |
| CallbackTable.UpdatesReachCallbacks | src/subscriber.rs:105-113 | Conversely, for every update in the batch, every callback registered for its id is called with its value. |
| CallbackTable.SingleUpdateCallsEachOnce | src/subscriber.rs:106-111 | A batch of one update calls each callback of its id exactly once. |
| CallbackTable.CommandsOf | src/subscriber.rs:115-129 | A command is among the commands taken from the task's inputs exactly when the inputs hold it. |
| CallbackTable.CommandsOfAppend | src/subscriber.rs:102-131 | The commands of two runs of inputs are those of the first followed by those of the second, in the order the task receives them. |
| CallbackTable.TableAfterSnoc | src/subscriber.rs:102-131 | The table after one more input is that input's step applied to the table before it. |
| CallbackTable.TableAfterIsCommandsOnly | src/subscriber.rs:103-129 | Batches never change the table: after any inputs, the table is what the commands among them alone make of it. |
| CallbackTable.TaskKeepsNoEmptyEntries | src/subscriber.rs:101-131 | Whatever inputs the task is handed, its table never holds an empty callback map. |
| CallbackTable.RunsSingle | src/subscriber.rs:103-131 | A command produces no calls. A batch produces its fan-out. |
| CallbackTable.RunsBatchFirst | src/subscriber.rs:104-113 | Appending calls at the end of a run that starts with a batch leaves that batch's calls in front. |
| CallbackTable.RunsSnoc | src/subscriber.rs:102-131 | Handling one more input extends the task's calls by that input's calls. A batch fans out against the table the earlier commands left. |
| Subscriber.CbIdCounter.constructor | src/subscriber.rs:30 | The counter starts at 0, with no id handed out. |
| Subscriber.CbIdCounter.New | src/subscriber.rs:27-33 | `fetch_add(1)` returns the current value and advances the counter by one, modulo 2^64. Until the counter wraps, the ids handed out are exactly 0 to next - 1, and each new id is larger than all earlier ones. |
| Subscriber.CommandSender.constructor | src/subscriber.rs:138 | A new unbounded channel has nothing sent. |
| Subscriber.CommandSender.Send | src/subscriber.rs:72-73 | `unbounded_send` appends the command to those sent, in order. |
| Subscriber.DVal.constructor | src/subscriber.rs:93 | A handle starts with no callback ids. |
| Subscriber.DVal.OnUpdate | src/subscriber.rs:64-75 | `on_update` draws the counter's next id. It sends exactly one `RegisterCb` for that id under the handle's subscription and adds the id to the handle's set. Until the counter wraps, the id is not one the handle already held. |
| Subscriber.DVal.Drop | src/subscriber.rs:49-57 | Drop sends one `UnregisterCb` for each held id, each exactly once, and nothing else. |
| Subscriber.Subscriber.constructor | src/subscriber.rs:141-145 | The subscriber shares the command sender and the counter. |
| Subscriber.Subscriber.Subscribe | src/subscriber.rs:90-94 | `subscribe` returns a new handle with the subscription's id, an empty set of callback ids, and the shared sender and counter. |
| Subscriber.Dispatcher.constructor | src/subscriber.rs:101 | The task starts with an empty table. |
| Subscriber.Dispatcher.HandleRegister | src/subscriber.rs:117-119 | The `RegisterCb` arm updates the table in place to `Register` of the old table. It keeps the no-empty-entry invariant. |
| Subscriber.Dispatcher.HandleUnregister | src/subscriber.rs:120-128 | The `UnregisterCb` arm updates the table in place to `Unregister` of the old table. It keeps the no-empty-entry invariant. |
| Subscriber.Dispatcher.HandleCommand | src/subscriber.rs:115-129 | A command updates the table to `Apply` of the old table. |
| Subscriber.Dispatcher.CallAll | src/subscriber.rs:107-111 | The loop over `cbs.values()` calls each callback of the id exactly once, with the value, in some order. |
| Subscriber.Dispatcher.HandleBatch | src/subscriber.rs:104-113 | The batch arm produces exactly the batch's fan-out against the current table. It modifies nothing. |
| Subscriber.Dispatcher.Run | src/subscriber.rs:102-132 | After any inputs, the table is `TableAfter` of the old table and free of empty entries. The calls made are exactly `Runs` of the inputs. |

## Left out

- Concurrency is left out: the mpsc channels, `select_biased!`, the bounded update channel of capacity 3 and `tokio::task::spawn`.
  - Each loop arm is a sequential step.
  - The inputs the task picks are a sequence given to `Run`.
  - A blocking `ThreadsafeFunction::call` is a recorded `Call`. The callback it runs in JavaScript is not modelled.
- The link between the conversion and the dispatcher is not modelled. The thread-safe function made by `on_update` runs `js_of_value` on every value delivered to it, with the fatal error strategy. So an `Update` carrying a `Duration` or a `DateTime`, at any depth, reaches a conversion that fails. `HostConvert.ToJs` states that failure, but a `Call` does not record the conversion or what the failure does to the process.
- Subscriber.DVal.Drop: the commands are a ghost out-parameter. Only their multiset of ids is specified, not the order of the hash set.
- Subscriber.Dispatcher.CallAll: promises no order among the callbacks of one id, because `FxHashMap` iteration is in hash order.
- `unbounded_send` can fail once the receiver is gone. The binding ignores that result, and the model treats sending as always succeeding.
- The loop ends when a channel closes. That lifecycle is left out, and so are `create_subscriber`'s configuration loading and network setup.
- The netidx subscriber itself is left out. `durable_subscribe` becomes the subscription id passed to `Subscribe`, and `val.updates` is not modelled.
- Float payloads are opaque bit patterns. `f32 as f64` widening is recorded, not computed.
- `Value::get_int` and `Value::get_float` delegate to netidx's `cast_to`, which is not part of this model.
- napi calls that create JavaScript values are taken to succeed, so only the unimplemented conversions fail.
- HostConvert.ToJsAll: the array is modelled as exactly the converted elements. The `a.len() as u32` length hint, which truncates above 2^32 - 1 elements, and napi's `insert` semantics on a preallocated array are not modelled.
- `src/path.rs`, `src/publisher.rs` and `src/lib.rs` are not part of this model. The path functions wrap netidx code that is not shown, and the publisher is configuration and network code.
