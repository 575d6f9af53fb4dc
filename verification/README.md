# SFNetworkManager session model

A Dafny model of `SF.SFNetworkManager`, the client-side network session
manager of BounceArena. The manager owns a TCP client and two FIFO string
queues. `sendMessage` serialises a request onto the send queue,
`onRecvMsg` (called by the client) puts a raw message on the receive queue,
and once per frame `update` flushes the send queue to the client's
`sendData` and drains the receive queue. Each received item is parsed as
an envelope carrying a protocol id (`pid`). `handleProtocol` then decodes
pid 1 as a login response and publishes it on topic `socket_1`. Pid 0 is
ignored, and every other pid is reported as unrecognised.

The model is functional. `Session.Manager` is either `Uninitialised` (client
and queues null) or `Active(client, sendQueue, recvQueue)`. Every operation
is a pure transition. `update` returns a `Tick`: the new state, the strings
handed to `sendData` in call order, and one `Protocol.Outcome` per received
item. An outcome is either a published event or the reason the item was
dropped. The JSON library is a parameter (`Protocol.Json`) made of three
functions: serialise a request, parse an envelope to its pid, and decode a
login response. Each of the last two returns `None` when the library throws
or yields null. The transport is a value with an identity and an opaque
readiness flag.

Modules: `Wrappers` (Option), `Decimal` (the decimal text of the pid in a
topic name), `Protocol` (envelope handling, the id switch, a table-driven
reference for it, the event log) and `Session` (the manager's state and
operations).

Behaviour of the code that the model keeps as written:
- `sendMessage`, `onRecvMsg` and `update` on an uninitialised manager
  dereference null queues and throw. They are not no-ops. The model makes an
  active manager a precondition of each.
- A second `init` without `uninit` is not rejected. It replaces the client
  without releasing it, and it discards queued items
  (`Session.ReinitAbandonsPriorClient`). It also replaces the event dispatcher,
  so listeners registered on the old one stop receiving events. The abandoned
  client still holds this manager's receive callback and connect-result
  callback, so it keeps feeding this manager. The model covers neither
  dispatcher identity nor the abandoned client's callbacks.
- Protocol ids go through a hard-coded `if` chain, not a registry table.
  `Protocol.HandleProtocolIsRegistryDispatch` proves that the chain agrees
  with a table-driven dispatch.
- The manager has no connection states of its own. Readiness is "client
  present and the client says it is ready".

## Model

| member | source | states |
|---|---|---|
| Session.Init | Assets/Scripts/Network/SFNetworkManager.cs:56-62 | init leaves the manager active, holding the new client and two empty queues |
| Session.ReinitAbandonsPriorClient | Assets/Scripts/Network/SFNetworkManager.cs:59-62 | init on an active manager drops the queued items; a later uninit releases only the new client, never the old one |
| Session.Uninit | Assets/Scripts/Network/SFNetworkManager.cs:81-96 | uninit always ends uninitialised; it releases the client exactly when one was held, and that client is the held one |
| Session.UninitIdempotent | Assets/Scripts/Network/SFNetworkManager.cs:81-96 | a second uninit releases nothing and leaves the same state as the first |
| Session.IsReady | Assets/Scripts/Network/SFNetworkManager.cs:102-105 | ready implies a client is held; with a client, ready is exactly the client's own flag |
| Session.NotReadyWithoutClient | Assets/Scripts/Network/SFNetworkManager.cs:102-105 | isReady is false before init and after any uninit |
| Session.SendMessage | Assets/Scripts/Network/SFNetworkManager.cs:111-115 | the send queue grows by exactly the serialised request at its back; its existing items, the receive queue and the client are unchanged |
| Session.OnRecv | Assets/Scripts/Network/SFNetworkManager.cs:117-123 | the receive queue grows by exactly the message at its back; its existing items, the send queue and the client are unchanged |
| Session.Update | Assets/Scripts/Network/SFNetworkManager.cs:125-154 | reference meaning of update: both queues end empty, the client is kept, there is one outcome per received item and no more events than items; UpdateLoop proves that the two loops compute it |
| Session.UpdateLoop | Assets/Scripts/Network/SFNetworkManager.cs:125-154 | after update both queues are empty and the client is unchanged; sendData received the old send queue in FIFO order; receive item i was processed on its own into outcome i; the events published are exactly the published outcomes, in order (assuming listeners do not call back into the manager) |
| Session.SendsOf | Assets/Scripts/Network/SFNetworkManager.cs:111-115 | a run of calls queues no more strings for sending than there were calls (helper of Apply; the exact count is EachCallEnqueuesOne) |
| Session.RecvsOf | Assets/Scripts/Network/SFNetworkManager.cs:117-123 | a run of calls queues no more received messages than there were calls (helper of Apply; the exact count is EachCallEnqueuesOne) |
| Session.EachCallEnqueuesOne | Assets/Scripts/Network/SFNetworkManager.cs:111-123 | every sendMessage or onRecvMsg call enqueues exactly one item: the two queues together grow by the number of calls |
| Session.SendsInCallOrder | Assets/Scripts/Network/SFNetworkManager.cs:111-115 | a run of sendMessage calls queues exactly the serialised requests in call order, and nothing to the receive queue |
| Session.Step | Assets/Scripts/Network/SFNetworkManager.cs:111-123 | one call appends its serialised request to the send queue or its message to the receive queue, and keeps the client |
| Session.Apply | Assets/Scripts/Network/SFNetworkManager.cs:111-123 | any interleaving of sendMessage and onRecvMsg calls appends the serialised requests and the raw messages to the two queues, each in call order, and keeps the client |
| Session.UpdateAfterInputs | Assets/Scripts/Network/SFNetworkManager.cs:111-153 | after any calls, update sends the old queue followed by the new requests and processes the old then the new messages, all in order |
| Session.TickSplit | Assets/Scripts/Network/SFNetworkManager.cs:125-154 | an update, then calls, then an update gives the same sends, outcomes, events and final state as one update after the calls: nothing is lost or reordered between frames (assuming no onRecvMsg runs while update is running) |
| Session.LoginDelivered | Assets/Scripts/Network/SFNetworkManager.cs:117-177 | a login response with a valid envelope, received on an idle manager, yields exactly one event: topic socket_1 with the decoded login as payload |
| Session.AtMostOneEventPerItem | Assets/Scripts/Network/SFNetworkManager.cs:133-177 | the update's event log is the events of items before i, then item i's own contribution, then the events of items after i; item i contributes at most one event |
| Protocol.HandleProtocol | Assets/Scripts/Network/SFNetworkManager.cs:156-183 | an event is published iff pid is 1 and the login decodes, on topic socket_1 with the decoded payload; pid 0 is ignored; every other pid is unrecognised; a failed login decode is swallowed with no event; an unrecognised or decode-failure outcome carries the pid it was given |
| Protocol.Process | Assets/Scripts/Network/SFNetworkManager.cs:135-152 | an item is malformed iff its envelope does not parse; otherwise it is dispatched on its parsed pid |
| Protocol.Outcomes | Assets/Scripts/Network/SFNetworkManager.cs:133-153 | draining a queue yields one outcome per item, in order; each depends on that item alone |
| Protocol.Events | Assets/Scripts/Network/SFNetworkManager.cs:174-177 | the event log is no longer than the outcome log; every logged event comes from a published outcome and every published outcome's event is logged (count and order: EventsSingleton with EventsAppend) |
| Protocol.EventsSingleton | Assets/Scripts/Network/SFNetworkManager.cs:174-177 | one outcome contributes its own event if published and nothing otherwise |
| Protocol.EventsAppend | Assets/Scripts/Network/SFNetworkManager.cs:133-153 | the events of two consecutive runs of outcomes are the first run's events followed by the second's |
| Protocol.OutcomesAppend | Assets/Scripts/Network/SFNetworkManager.cs:133-153 | draining a concatenated queue is draining each part in turn |
| Protocol.OutcomesSnoc | Assets/Scripts/Network/SFNetworkManager.cs:133-153 | one more loop iteration extends the outcome log by exactly that item's outcome |
| Protocol.DrainAppend | Assets/Scripts/Network/SFNetworkManager.cs:133-153 | the events of a concatenated queue are the events of the first part followed by those of the second |
| Protocol.BadItemDoesNotBlock | Assets/Scripts/Network/SFNetworkManager.cs:133-182 | an item that publishes nothing adds no event, and the items after it are processed as if it were absent |
| Protocol.LoginTopic | Assets/Scripts/Network/SFNetworkManager.cs:161 | the topic for pid 1 is the string socket_1 |
| Protocol.Topic | Assets/Scripts/Network/SFNetworkManager.cs:161 | the topic is "socket_" followed by the canonical signed decimal text of the pid: a '-' exactly for negative pids, no leading zeros, and it reads back as the pid |
| Decimal.IntToString | Assets/Scripts/Network/SFNetworkManager.cs:161 | the decimal text of an int is digits, optionally after a '-' that appears exactly for negatives, with no leading zeros; it reads back as the int |
| Protocol.TopicInjective | Assets/Scripts/Network/SFNetworkManager.cs:161 | distinct pids have distinct topics |
| Decimal.IntToStringInjective | Assets/Scripts/Network/SFNetworkManager.cs:161 | the decimal text of an int determines the int |
| Decimal.NatRoundTrip | Assets/Scripts/Network/SFNetworkManager.cs:161 | reading back the decimal digits of a natural number gives that number |
| Protocol.Registry | Assets/Scripts/Network/SFNetworkManager.cs:163-173 | the known pids are exactly 0 and 1 |
| Protocol.Dispatch | Assets/Scripts/Network/SFNetworkManager.cs:163-177 | table dispatch: unrecognised iff the pid has no entry; ignored iff its entry is silent; published iff its entry is a decoder that succeeds, and then the event is the pid's topic with the decoded payload; decode failure iff the decoder fails; an unrecognised or decode-failure outcome carries the pid it was given |
| Protocol.HandleProtocolIsRegistryDispatch | Assets/Scripts/Network/SFNetworkManager.cs:163-177 | the hard-coded id chain gives the same outcome as dispatch through the registry table on every pid and message |

## Left out

- Locking and threads: only `onRecvMsg` takes the lock on the receive queue. `update` reads `Count` and calls `Dequeue` without the lock, so an `onRecvMsg` on the transport's thread while `update` runs is a data race on an unsynchronised `Queue<string>`. The model assumes that no `onRecvMsg` runs while `update` is running: each call is an atomic step. `Session.TickSplit` covers a message that arrives between two updates. Its promise that nothing is lost or reordered between frames, and that of `Session.UpdateLoop`, hold only under this assumption.
- Session.TickSplit: holds only when no `onRecvMsg` runs during an `update`, because `update` drains the receive queue without taking its lock.
- The TCP client: connecting, `sendData`, its readiness flag and `uninit` are not modelled. `sendData` is the `sent` log and a release is the `released` field of `Teardown`. A client is identified by its `id`.
- The readiness flag is a snapshot taken when the client is handed to `Session.Init`. The real client flips it on its own thread when the connection succeeds or drops; no step of the model changes it, so `Session.IsReady` is constant over a session.
- Exceptions from `sendData`: the model treats `sendData` as total. In the code a throw would abort `update` with the rest of the send queue still queued.
- The dispatcher constructor (line 61), the client constructor (line 62), the connect-result callback (lines 63-74) and the interruption forwarding (lines 75-78) in `init` are not modelled. They belong to the transport and the dispatcher. The new client is a parameter of `Session.Init`.
- `JsonUtility` is not modelled. Its three uses are abstract functions in `Protocol.Json`. A throw and a null result are merged into `None`.
- `SFEventDispatcher` fan-out and listeners are not modelled. A publication is an entry in the event log. A listener that throws inside `dispatchEvent` is caught by `handleProtocol`; that case is not modelled.
- Session.UpdateLoop: assumes that event listeners do not call back into the manager during `update`. `dispatchEvent` runs listeners synchronously inside the receive loop. A listener that calls `sendMessage` leaves its request in the send queue when `update` returns, because the flush loop has already finished; it goes out on the next `update`. A listener that calls `uninit` nulls the receive queue, so the loop test throws a NullReferenceException out of `update`. Under such listeners the promise of `Session.UpdateLoop` that both queues end empty does not hold.
- Logging is not modelled. Its distinctions survive as the `Outcome` constructors.
- The hard-coded host and port, the lazy singleton `getInstance` and the finalizer are not modelled. They carry no behaviour worth verifying, or they depend on when the garbage collector runs.
- The `dt` argument of `update` is unused by the code and is dropped.
- Topic text assumes the invariant-culture rendering of negative numbers (a leading '-').
