# LineReader: a verified model of a line-oriented multiplexer

`LineReader` watches a set of sources: stream sockets and pipes that yield newline-terminated lines, and listening sockets that only signal a pending accept. A background loop polls the registered sources. It queues each complete line, stripped of trailing whitespace, on that source's FIFO queue. It calls an acceptor's callback directly. A source whose stripped read is empty is removed from the registry, and its `on_remove` callback is called. The caller's `process()` hands at most one queued line per source to that source's callback, and stops the reader when a callback returns true. `send_all(msg)` writes `msg` and a newline to every registered source that can write, and flushes every source that can flush.

The model has five modules:

- `Text` (text.dfy): `str.rstrip()` as Python 2 applies it to a byte string, and its properties.
- `Sources` (sources.dfy): sources, callbacks, registry entries, the lookup with its default pair, and what a callback returns.
- `Engine` (engine.dfy): the reader's logic as functions on a snapshot `State`, with its lemmas. The snapshot holds the registry, the queues, every line ever queued per source, an event log and the stop flag. The functions are one read step, one poll cycle, the run loop, the drain done by `process` and the broadcast done by `send_all`. The lemmas cover per-case effects, FIFO order, exactly-once removal, early exit on "terminate", and what a broadcast reaches.
- `Reader` (reader.dfy): the `LineReader` class. Its fields are updated in place and its methods have loops. Each method is proved to produce the state that the matching `Engine` function gives. The class invariant `Valid()` is the FIFO invariant.
- `Findings` (findings.dfy): the default callbacks' argument count as written (see Findings).

Inputs the code gets from the operating system or from user code are parameters of the model:

- `select`'s answer is the `signalled` sequence of a `Poll`, filtered to registered sources by `Select`.
- `readline`'s result is a function `Source -> ReadOutcome`. `Line(text)` is the returned text, and `Line("")` is end of stream. `Incomplete` means `LineIncomplete` was raised.
- A user callback's return value comes from an oracle `answer: Source -> bool`. Each call of `process` visits a source at most once, so this loses nothing.
- `_thread.is_alive()` is the parameter `threadAlive`.
- The iteration order of `_queues.items()` and of `_map.keys()` is the parameter `keys`: a duplicate-free enumeration of the dictionary's keys.
- The `hasattr` probes are fields of the `Source` handle: `kind` (`Readable` or `Acceptor`), `canWrite` and `canFlush`.
- Calls of callbacks, writes and flushes are recorded in a ghost event log.

The model keeps these behaviours of the code as written:

- `send_all` flushes every source that has `flush`, whether or not it was written to. It does not flush only after a write.
- A whitespace-only line counts as end of stream, because `rstrip()` makes it empty.
- `stop()` does not remove registry entries.
- `process()` still delivers queued lines after `stop()`. It returns false then only because the thread is no longer alive.

## Model

| member | source | states |
|---|---|---|
| Text.RStrip | lampq/line_reader.py:40 | the result is the longest prefix of the line that does not end in whitespace: a prefix, not ending in whitespace, with only whitespace cut off |
| Text.RStripIdempotent | lampq/line_reader.py:45 | stripping the stored line again changes nothing, so the queued line equals `readline().rstrip()` |
| Text.RStripEmptyIff | lampq/line_reader.py:44 | the stripped read is empty exactly when the read is empty or all whitespace |
| Text.RStripUnique | lampq/line_reader.py:40 | any prefix with RStrip's three properties is RStrip's result |
| Sources.GetEntry | lampq/line_reader.py:54-55 | a registered source yields its pair; an unregistered one yields the default pair, both of whose callbacks return False; the lookup never fails |
| Sources.LookupAfterAdd | lampq/line_reader.py:51-55 | after `add(f, cb, rm)` a lookup of `f` returns `(cb, rm)`, and every other source gets what it got before |
| Engine.ReadStepStoresLine | lampq/line_reader.py:40-45 | a readable source with a non-blank line gets its stripped line appended to the end of its queue; the registry, the log, the stop flag and every other queue are unchanged |
| Engine.ReadStepIncomplete | lampq/line_reader.py:39-42 | an incomplete read leaves the whole state unchanged |
| Engine.ReadStepBlankRemoves | lampq/line_reader.py:44-49 | an empty or whitespace-only read removes the source from the registry and logs exactly one call of its registered `on_remove`; its queue is kept |
| Engine.ReadStepAcceptor | lampq/line_reader.py:33-37 | a ready acceptor logs one call of its registered callback with the source as both arguments; no queue or registry entry changes |
| Engine.CycleQueues | lampq/line_reader.py:32-45 | after a cycle over distinct ready sources, each source's queue is its old queue plus exactly the stripped line it read, if that line was non-blank |
| Engine.CycleRegistry | lampq/line_reader.py:46-48 | a cycle removes exactly the ready sources whose stripped read was empty, changes no other entry and leaves the stop flag alone |
| Engine.CycleLog | lampq/line_reader.py:32-49 | a cycle logs, source by source, the accept or removal each ready source causes, using the callbacks registered when the cycle began |
| Engine.CycleEventsRemovals | lampq/line_reader.py:46-49 | within a cycle a source gets at most one `on_remove` call, exactly when its read was at end of stream |
| Engine.CycleRemovesOnce | lampq/line_reader.py:46-49 | a registered ready source leaves the registry exactly when its read ended its stream, and then exactly one more `on_remove` call for it is logged |
| Engine.Select | lampq/line_reader.py:31 | `select` returns exactly the signalled sources that are registered, without duplicates when the signalled ones have none |
| Engine.RunRemovesOnce | lampq/line_reader.py:30-49 | over any number of cycles a source gets at most one `on_remove` call: one exactly when it was registered before and is gone after; the registry only shrinks |
| Engine.RunStopsWhenGuardFails | lampq/line_reader.py:30 | once the stop flag is set or at most one source is registered, no further cycle runs |
| Engine.DrainStopsAt | lampq/line_reader.py:70-73 | when the callback for the `i`-th source returns true, the drain's result is fixed there: the reader is stopped and no later source is visited |
| Engine.DrainAfterTerminate | lampq/line_reader.py:70-73 | once a callback has asked to stop, visiting further sources changes nothing |
| Engine.DrainFrame | lampq/line_reader.py:64-75 | `process` leaves the registry and the arrivals alone, and the stop flag is set afterwards exactly when it was set before or a callback asked to stop |
| Engine.DrainQueues | lampq/line_reader.py:65-75 | one `process` call removes at most the front line of each queue; when no callback asks to stop, it removes the front of every non-empty queue and skips the empty ones |
| Engine.DrainOneDelivers | lampq/line_reader.py:66-69 | one source's turn on a non-empty queue takes its front line and logs its delivery to the callback registered for that source (or the default), leaving the registry and arrivals alone; on an empty queue it changes nothing |
| Engine.DrainLog | lampq/line_reader.py:64-75 | over distinct sources, a drain that no callback stopped logs, in key order, one delivery of each non-empty queue's front line to the callback the registry holds for that source |
| Engine.DrainOneTerminates | lampq/line_reader.py:66-73 | dispatching one source asks the reader to stop exactly when its queue is non-empty and its registered user callback returns true |
| Engine.DefaultCallbackNeverStops | lampq/line_reader.py:54-55 | a line queued for a source that is no longer registered is taken off its queue, handed to the default callback and never stops the reader |
| Engine.FifoDeliversInOrder | lampq/line_reader.py:64-69 | under the FIFO invariant the lines delivered for a source are a prefix of the lines that arrived for it, in arrival order |
| Engine.CycleKeepsFifo | lampq/line_reader.py:40-45 | a cycle keeps the FIFO invariant: delivered lines followed by queued lines are exactly the lines that arrived |
| Engine.DrainConserves | lampq/line_reader.py:67-69 | `process` moves lines from the front of a queue to the delivered lines of the same source, losing and reordering none |
| Engine.DrainKeepsFifo | lampq/line_reader.py:64-75 | `process` keeps the FIFO invariant |
| Engine.BroadcastReaches | lampq/line_reader.py:57-62 | over distinct sources, `send_all(msg)` writes exactly `msg` and a newline once to each enumerated source that can write and to no other, flushes each enumerated source that can flush whether or not it can write, and delivers no line |
| Engine.BroadcastOrder | lampq/line_reader.py:57-62 | over distinct sources, the broadcast's events for each source are, in order, the write of `msg` and a newline when it can write and then its flush when it can flush, and none for a source not enumerated |
| Engine.BroadcastKeepsFifo | lampq/line_reader.py:57-62 | `send_all` keeps the FIFO invariant |
| Reader.LineReader.constructor | lampq/line_reader.py:13-18 | the reader starts with the caller's map, no queues, no events and the stop flag clear |
| Reader.LineReader.Stop | lampq/line_reader.py:23-27 | `stop()` sets the stop flag, which turns the loop guard off, and changes nothing else |
| Reader.LineReader.Add | lampq/line_reader.py:51-52 | `add` maps the source to its new pair and changes nothing else |
| Reader.LineReader.Cycle | lampq/line_reader.py:32-49 | one cycle over distinct registered ready sources leaves the reader in the state `Engine.CycleOf` gives and keeps the FIFO invariant |
| Reader.LineReader.Run | lampq/line_reader.py:29-49 | the background loop ends in the state `Engine.RunOf` gives; it stops early only when the loop guard fails, and runs no cycle when the guard is false at the start |
| Reader.LineReader.Dispatch | lampq/line_reader.py:66-75 | one source's turn in `process()` ends in the state `Engine.DrainOne` gives: the front line, if any, is taken and handed to the callback registered for that source, and the reader is stopped exactly when the callback asks for it |
| Reader.LineReader.Process | lampq/line_reader.py:64-77 | `process()` ends in the state `Engine.DrainOf` gives; it returns false when a callback asked to stop, and whether the thread is alive otherwise; after `stop()` it returns false; when no callback stopped it, the log grows by exactly `Engine.DrainEvents` of the registry and queues it started from |
| Reader.LineReader.SendAll | lampq/line_reader.py:57-62 | `send_all` appends exactly the broadcast's writes and flushes to the log and keeps the FIFO invariant |
| Findings.CallAsWritten | lampq/line_reader.py:55 | a default callback called with other than two arguments fails with a TypeError; when any call returns, it returns what `Reply` gives |
| Findings.ProcessCallAsWritten | lampq/line_reader.py:68-69 | the three-argument call in `process` fails for every source that is not registered |
| Findings.LineAfterCloseBreaksProcess | lampq/line_reader.py:44-69 | a source that queues "hello" and then reaches end of stream leaves a line whose delivery fails as written; under the corrected default the same drain drops it and carries on |

## Left out

- Threads: `start()`, the `threading.Thread` and `threading.Event` objects, `join`, and concurrent access to the registry and queues. `stop()` is a flag set. `is_alive()` is a parameter of `Process`, with a precondition that says a stopped reader's thread has exited.
- Reader.LineReader.Process: the drain uses the corrected default callback described under Findings, which returns False. As written, the call at lampq/line_reader.py:69 fails with a TypeError for a source that is no longer registered. `get_nowait()` has already taken the line off the queue by then, so the line is lost, the TypeError escapes `process`, and the remaining sources are not visited.
- Reader.LineReader.constructor: in the code the registry is the caller's own dictionary, not a copy. `add` and the end-of-stream `del` change the caller's dictionary, and the caller's own inserts and deletes reach the loop guard and `select`. The model copies the map into the reader and does not model the caller's direct edits.
- Reader.LineReader.Run: the loop stops when the given polls run out, because in the code only `stop()` from another thread ends a loop that still has more than one source.
- Adds made during a cycle: no `add` runs between the `select` and the end of a cycle.
- `select`'s 0.0 timeout, and real `readline`, `write` and `flush` on sockets and pipes. They are operating-system I/O, so they are modelled as inputs and logged events.
- Read errors other than `LineIncomplete`, and write or flush failures. The code does not handle them, so they escape the method; the model has no such outcome.
- The partial-line buffering that precedes a `LineIncomplete`. It belongs to the source's own `readline`, which is not part of this model.
- `Queue.Queue` thread safety and the laziness of `collections.defaultdict`. A queue is a `seq<string>` that is empty when absent.
- The iteration order of Python dictionaries. It is a given duplicate-free enumeration of the keys.
- `logging` calls, and whatever user callbacks do inside: re-entrant calls of `add` or `send_all`, and raising exceptions. Only the call and its return value are modelled.
- Unicode strings: `rstrip()` is modelled on byte strings, whose whitespace is space, tab, newline, carriage return, vertical tab and form feed.

## Findings

| source | as written | input that shows it | evidently intended | confidence | as-written member | corrected member |
|---|---|---|---|---|---|---|
| lampq/line_reader.py:55 | the default pair is `(lambda x, y: False, lambda x, y: False)`, but `process` calls the looked-up callback with three arguments (line 69) and catches only `Queue.Empty`, so a TypeError escapes `process` | a source queues "hello", then reads end of stream and is removed before `process` runs; `process` then calls the default lambda with `(engine, f, "hello")` | a lookup miss is harmless: the default callback accepts the call and returns False, so the stale line is dropped and the drain goes on | high, not executed | Findings.LineAfterCloseBreaksProcess | Engine.DefaultCallbackNeverStops |
