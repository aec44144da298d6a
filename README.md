# Server-sent-events fan-out: registry and broadcaster

This project models the subscriber registry and the fan-out broadcaster of a
Spring application. The application pushes events from a message queue to
browser clients over server-sent events (SSE).

- The registry is the `emitters` list of `EventController`, a
  `CopyOnWriteArrayList<SseEmitter>`.
- `SseController.handle` creates a new subscriber handle (an `SseEmitter`),
  appends it to the registry, and wires three callbacks to it:
  - completion removes the handle;
  - timeout removes the handle;
  - error only logs.
- `EventController.onNewEvent(payload)` walks the registry and tries
  `send(payload)` on every handle. It catches each failure and records the
  failed handle in a local `deadEmitters` list. After the walk it calls
  `removeAll(deadEmitters)` on the registry.
- `WebSocketController.message` is the topic-channel handler. It returns its
  input unchanged.

Files:

- `cow_list.dfy` (module `CowList`) holds the list operations as functions on
  sequences, with lemmas about them:
  - `RemoveFirst` is `remove(Object)`;
  - `RemoveAll` is `removeAll(Collection)`;
  - `Select` is the order-preserving filter. It describes what a broadcast
    leaves behind (the successful handles) and what it evicts (the failed ones).
- `sse.dfy` (module `Sse`) holds:
  - the handle class `Emitter`;
  - the controller class `SseController`, with the `emitters` field and a
    ghost log `attempts` of every delivery attempt;
  - the registration, callback and broadcast methods.
  The Dafny class `SseController` stands for both the Java `SseController`
  and the abstract `EventController` it extends.
- `websocket.dfy` (module `WebSocket`) holds the echo handler.
- `scenarios.dfy` (module `Scenarios`) holds four client methods. They show
  what callers can prove from the contracts alone:
  - three subscribers, one of them fails;
  - no delivery after removal, and a double removal;
  - an error callback followed by a failed delivery;
  - an error callback followed by a completion.

## Modelling decisions

- The outcome of `SseEmitter.send` is an oracle parameter
  `sendOk: Emitter -> bool`. The network is not modelled. A failed send is
  the `false` result of `TrySend`, which stands for the source's
  `try`/`catch`; it never propagates.
- The broadcast loop runs over `snapshot`, a local copy of the registry taken
  before the loop. This matches the snapshot iteration of
  `CopyOnWriteArrayList.forEach`. Everything is single-threaded, so the
  registry is still equal to the snapshot when `removeAll` runs.
- `Valid()` says that no handle is registered twice. The constructor
  establishes it, and every method keeps it, because `Handle` only appends
  freshly allocated handles. The methods therefore require it as a class
  invariant. The broadcast result `Select(old(emitters), sendOk, true)` holds
  with or without it (`CowList.RemoveFailed` has no such precondition).
- Three things one might expect of a subscriber registry do not hold of the
  code as written, and the model follows the code:
  - `add` is not idempotent: line 94 appends unconditionally. There are no
    duplicates only because every handle is new.
  - `remove(Object)` (lines 96-97) drops one occurrence per call. On a list
    with duplicates, removing twice is not the same as removing once
    (`CowList.RemoveFirstTwiceOnDuplicate`). Idempotence holds under the
    registry invariant (`CowList.RemoveFirstDistinct`).
  - The error callback (line 98) only logs and does not remove. The handle
    stays registered until a failed delivery, a completion or a timeout
    removes it (`Scenarios.ErrorThenFailedDelivery` and
    `Scenarios.ErrorThenCompletion`).
- The registry is a list, not a set. Order is kept, and the broadcast result
  is stated as an order-preserving filter.

## Model

| member | source | states |
|---|---|---|
| `CowList.Select` | src/main/java/com/steven/rowney/app/Application.java:110-119 | every kept element comes from the list and has the requested outcome, and every element of the list with that outcome is kept; the result is no longer than the list |
| `CowList.SelectSplits` | src/main/java/com/steven/rowney/app/Application.java:111-116 | every handle of the snapshot is either a success or a failure: the two selections together are the snapshot, as a multiset and by length |
| `CowList.SelectIsSubsequence` | src/main/java/com/steven/rowney/app/Application.java:119 | the handles left after a broadcast keep their relative order: an order-preserving subsequence |
| `CowList.SelectAppend` | src/main/java/com/steven/rowney/app/Application.java:110-117 | walking one more handle adds it to the collected list exactly when its outcome matches; this is how `deadEmitters` grows in the loop |
| `CowList.SelectDistinct` | src/main/java/com/steven/rowney/app/Application.java:119 | filtering a registry without duplicates leaves one without duplicates |
| `CowList.RemoveFirst` | src/main/java/com/steven/rowney/app/Application.java:96-97 | `remove(Object)` is a no-op when the handle is absent, and shortens the list by exactly one when it is present |
| `CowList.RemoveFirstMultiset` | src/main/java/com/steven/rowney/app/Application.java:96-97 | `remove(Object)` takes out one copy of the handle and nothing else |
| `CowList.RemoveFirstAt` | src/main/java/com/steven/rowney/app/Application.java:96-97 | `remove(Object)` removes the first occurrence of the handle and keeps everything before and after it in place |
| `CowList.RemoveFirstIsSubsequence` | src/main/java/com/steven/rowney/app/Application.java:96-97 | `remove(Object)` never adds or reorders: the result is a subsequence |
| `CowList.RemoveFirstDistinct` | src/main/java/com/steven/rowney/app/Application.java:96-97 | on a registry without duplicates, removal takes the handle out entirely and keeps exactly the others; removing a second time changes nothing (idempotence) |
| `CowList.RemoveFirstTwiceOnDuplicate` | src/main/java/com/steven/rowney/app/Application.java:94-97 | without the no-duplicates invariant, removal is not idempotent: [x, x] loses one copy per call |
| `CowList.RemoveAll` | src/main/java/com/steven/rowney/app/Application.java:119 | `removeAll` keeps exactly the elements not in the collection, each one from the list; their order is kept (`CowList.RemoveAllIsSubsequence`) |
| `CowList.RemoveAllIsSubsequence` | src/main/java/com/steven/rowney/app/Application.java:119 | for every collection, `removeAll` never adds or reorders: the survivors are an order-preserving subsequence of the list |
| `CowList.RemoveAllSelect` | src/main/java/com/steven/rowney/app/Application.java:119 | if the collection holds, among the list's elements, exactly those that failed, then `removeAll` leaves exactly the successful ones, in order |
| `CowList.RemoveFailed` | src/main/java/com/steven/rowney/app/Application.java:110-119 | `removeAll` of the failed handles leaves the registry filtered to the successful handles, for every list including ones with duplicates |
| `CowList.AppendDistinct` | src/main/java/com/steven/rowney/app/Application.java:93-94 | appending a handle that is not yet registered keeps the registry free of duplicates |
| `Sse.AttemptsAt` | src/main/java/com/steven/rowney/app/Application.java:111-113 | a broadcast makes one attempt per snapshot position, in the snapshot's order, each with the same payload |
| `Sse.NoAttemptOutside` | src/main/java/com/steven/rowney/app/Application.java:111-113 | a handle that is not in the snapshot receives no attempt |
| `Sse.AttemptsAppend` | src/main/java/com/steven/rowney/app/Application.java:111-113 | one more loop step logs exactly one more attempt, at the end |
| `Sse.SseController.constructor` | src/main/java/com/steven/rowney/app/Application.java:106 | the registry starts empty, with an empty attempt log, and satisfies the invariant |
| `Sse.SseController.Handle` | src/main/java/com/steven/rowney/app/Application.java:92-100 | the registry grows by exactly one freshly created handle, at the end; the other entries and the log are unchanged; no duplicates |
| `Sse.SseController.Remove` | src/main/java/com/steven/rowney/app/Application.java:96-97 | the registry becomes `remove(Object)` of the old one: exactly the other handles stay, and an absent handle leaves it unchanged |
| `Sse.SseController.OnCompletion` | src/main/java/com/steven/rowney/app/Application.java:96 | the completion callback removes its handle, which is then absent |
| `Sse.SseController.OnTimeout` | src/main/java/com/steven/rowney/app/Application.java:97 | the timeout callback removes its handle, which is then absent |
| `Sse.SseController.OnError` | src/main/java/com/steven/rowney/app/Application.java:98 | the error callback leaves the registry and the log unchanged |
| `Sse.SseController.TrySend` | src/main/java/com/steven/rowney/app/Application.java:112-116 | one attempt is logged, and the failure is reported as a result rather than raised |
| `Sse.SseController.OnNewEvent` | src/main/java/com/steven/rowney/app/Application.java:108-120 | the registry becomes the old one filtered to the successful handles, both directions of membership, as an ordered subsequence; the dead list is exactly the failed handles; the log grows by exactly one attempt per old handle, in order, with the payload, whatever the outcomes |
| `WebSocket.MessageEchoes` | src/main/java/com/steven/rowney/app/Application.java:75-78 | the topic-channel handler, modelled by `WebSocket.Message`, returns its input unchanged |

## Left out

- Spring bootstrapping, configuration and annotations (`Application.main`, `WebSocketConfiguration`): framework wiring with no logic.
- The Kafka producer and consumer (`AppController.message`, `MessageReceiver.processMessage`): external queue I/O. Event publication dispatches the payload to every `String` event listener: to `onNewEvent`, which the model calls directly, and to `WebSocketController.sendMessage`, which is left out below.
- `WebSocketController.sendMessage`: a call into a library message broker whose code is not part of this model.
- `DateUtils.now`: it reads the wall clock. The payload is an opaque string.
- The `Response` class, `AppController.index`, and all logging: no behaviour.
- Thread safety of `CopyOnWriteArrayList`, and races between callbacks and an in-flight broadcast: that is concurrency. The model is single-threaded with an explicit snapshot.
- The network behaviour of `SseEmitter.send`: replaced by the oracle above.
- `TrySend`: the oracle gives each handle one outcome for the whole broadcast. The outcome cannot depend on the payload or on time.
- Callback registration itself (`onCompletion`, `onTimeout`, `onError`) is not modelled as stored closures. The callbacks are methods that the transport calls with the handle they were wired to.
