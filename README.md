# Matchmaking queue, modelled in Dafny

This project models the in-memory matchmaking queue of a small Node.js/Express
server for a Roblox game (`index.js`). The server keeps one module-level array of
`{ userId, name }` records, oldest first. Four authenticated routes change or read
it:

- `POST /queue/add` validates `userId` and `name`, refuses a `userId` that is already
  queued, and otherwise pushes the record at the back.
- `POST /queue/remove` validates `userId`, finds it and splices it out. The other
  records keep their order.
- `POST /queue/assign` validates `count`, hands out the first `count` records in FIFO
  order (fewer if fewer are waiting) and drops them from the queue.
- `GET /listQueue` returns the queue.

`POST /match/end` only acknowledges a `serverId`.

Files:

- `js_values.dfy` (module `JsValues`): the request-body values the handlers inspect,
  JavaScript truthiness (`!x`), and the `typeof count === 'number' && count > 0` test.
- `match_queue.dfy` (module `MatchQueue`): the record and result datatypes, and one
  transition function per handler. Each gives the response and the queue left
  behind. The module also holds the lemmas showing that each handler keeps the queue
  invariant: no two entries share a `userId`, and every entry passed validation.
- `queue_manager.dfy` (module `QueueServer`): class `QueueManager`. Its `queue` field
  is updated in place by methods with `modifies` clauses. The `findIndex`/`find`
  lookup is a linear search loop. Each handler method is proved to produce exactly
  what its transition function prescribes and to keep `Valid()`.
- `queue_traces.dfy` (module `QueueTraces`): requests served one after another.
  Node runs each handler body to completion, so this is every possible
  interleaving. It holds the properties that span several calls: add-then-remove
  round trip, duplicate refusal, N distinct enrolments, disjoint consecutive
  batches, the FIFO and withdrawal scenarios, and the invariant over any request
  sequence.

HTTP statuses become `Result` values: 200 is `Ok`, 400 is `Err(InvalidInput)`,
409 is `Err(AlreadyQueued)` and 404 is `Err(NotQueued)`.

Facts about `index.js` that shape the model:

- Records carry no timestamp. Queue order is array order: `push` appends at the
  back, and `slice` takes from the front.
- Assign answers with the batch's `userId`s only, not the records, and with no
  remaining queue size.
- Assign's validation checks only `count === undefined`, `typeof count !== 'number'`
  and `count <= 0`. A fractional `count` such as `1.5` passes it. Here `count` is an
  integer, so this case does not arise (see below).
- The list route serialises the live array to JSON. The response is therefore a
  snapshot, and that is how it is modelled.
- `/match/end` refuses a falsy `serverId` with 400, like the other routes do for
  missing fields.

## Model

| member | source | states |
|---|---|---|
| `JsValues.Truthy` | index.js:53 | `!v` is false exactly for the values other than `undefined`, `null`, `false`, `0` and `""` (the tests at index.js:53, 85 and 141) |
| `JsValues.IsPositiveNumber` | index.js:117 | a non-number `count` is refused; a number is accepted iff it is at least 1; an accepted `count` is truthy |
| `MatchQueue.Ids` | index.js:132 | the batch's id list has one entry per record, the `userId` at the same position |
| `MatchQueue.FirstIndex` | index.js:93 | result is -1 exactly when no entry has the id; otherwise the entry there has the id and no earlier one does |
| `MatchQueue.AddTransition` | index.js:49-78 | InvalidInput iff `userId` or `name` is falsy; AlreadyQueued iff both are present and the id is queued; success iff both are present and the id is not queued; on error the queue is unchanged; on success the queue grows by one, earlier entries are untouched, the new record is last and `queueSize` is the new length |
| `MatchQueue.AddKeepsInvariant` | index.js:53-70 | after add, ids are still pairwise distinct and every entry still has a truthy `userId` and `name` |
| `MatchQueue.RemoveTransition` | index.js:81-110 | InvalidInput iff `userId` is falsy; NotQueued iff it is present but not queued; success iff it is present and queued; on error the queue is unchanged; on success the first entry with that id is returned, the queue becomes `old[..i] + old[i+1..]`, `queueSize` is the new length (one less), and the multiset of entries loses exactly the removed one |
| `MatchQueue.RemoveKeepsInvariant` | index.js:85-102 | after remove the invariant still holds, and no entry with that `userId` is left, whichever way the call went |
| `MatchQueue.FalsyIdNotQueued` | index.js:53-58 | in a queue that satisfies the invariant, a falsy id is never queued |
| `MatchQueue.RemoveAtMultiset` | index.js:102 | splicing out position `i` removes exactly that one record from the multiset of entries |
| `MatchQueue.RemoveAtKeepsInvariant` | index.js:102 | splicing out one entry keeps ids distinct and leaves no entry with the removed id |
| `MatchQueue.AssignTransition` | index.js:113-134 | InvalidInput, with the queue unchanged, iff `count` is not a positive number; on success the batch has at most `count` ids and fewer only when the queue is emptied; the batch's ids followed by the remaining queue's ids are the old queue's ids; the remaining queue is the old queue minus its first batch-size entries |
| `MatchQueue.AssignKeepsInvariant` | index.js:124-126 | after assign the invariant still holds, and a batch never names a player twice |
| `MatchQueue.SuffixKeepsInvariant` | index.js:126 | what `slice(count)` leaves behind still satisfies the invariant |
| `MatchQueue.PrefixIdsDistinct` | index.js:125 | the ids of what `slice(0, count)` takes are pairwise distinct |
| `MatchQueue.AcknowledgeMatchEnd` | index.js:137-155 | acknowledges, echoing the `serverId`, iff it is truthy; otherwise InvalidInput; the queue is not an input |
| `QueueServer.QueueManager.constructor` | index.js:41 | the queue starts empty and valid |
| `QueueServer.QueueManager.FindIndex` | index.js:93 | the linear scan returns the first index whose entry has the id, or -1 |
| `QueueServer.QueueManager.Find` | index.js:61-62 | finds a record iff the id is queued, and it is the first entry with that id |
| `QueueServer.QueueManager.Add` | index.js:49-78 | response and new queue are those of `AddTransition`; the object invariant is kept |
| `QueueServer.QueueManager.Remove` | index.js:81-110 | response and new queue are those of `RemoveTransition`; the object invariant is kept |
| `QueueServer.QueueManager.Assign` | index.js:113-134 | response and new queue are those of `AssignTransition`; the object invariant is kept |
| `QueueServer.QueueManager.ListQueue` | index.js:158-163 | returns the queue's contents in FIFO order and changes nothing |
| `QueueServer.QueueManager.EndMatch` | index.js:137-155 | returns the acknowledgement of `AcknowledgeMatchEnd` and changes nothing |
| `QueueTraces.Handle` | index.js:49-163 | each request is answered by its own route: add, remove and assign answer with that route's transition result and leave that route's transition queue; list returns the current queue; list and match-end leave the queue as it was; match-end answers with `AcknowledgeMatchEnd` of the `serverId` |
| `QueueTraces.HandleKeepsInvariant` | index.js:41-163 | every route keeps the invariant |
| `QueueTraces.ReplayKeepsInvariant` | index.js:41-163 | no sequence of requests from a valid queue ever produces two entries with the same `userId` |
| `QueueTraces.AddThenRemove` | index.js:70-102 | after a successful add the record is in the queue, and removing the same id returns that record with the old size and restores the old queue |
| `QueueTraces.AddTwiceRejected` | index.js:61-67 | adding an id again right after it was added is refused with AlreadyQueued and leaves the queue unchanged |
| `QueueTraces.DistinctEnrolmentsAllSucceed` | index.js:61-77 | enrolling valid players with distinct new ids: every add succeeds, the i-th reports size `|q| + i + 1`, and they end up at the back in arrival order |
| `QueueTraces.ConsecutiveAssignsDisjoint` | index.js:125-126 | two assigns in a row hand out disjoint sets of ids which, together, are the front of the old queue in order |
| `QueueTraces.AssignDrainsShortQueue` | index.js:125-126 | a positive `count` at least the queue length succeeds, returns every id in order and empties the queue |
| `QueueTraces.EnrolThreeInOrder` | index.js:70 | three valid, distinct enrolments into an empty queue leave `[a, b, c]` |
| `QueueTraces.FifoScenario` | index.js:125-132 | after enrolling a, b, c, assigning 2 returns `[a, b]` and leaves `[c]` |
| `QueueTraces.WithdrawScenario` | index.js:93-109 | after enrolling a, b, c, removing b returns b with size 2 and leaves `[a, c]` |

## Left out

- Express setup, CORS and the OPTIONS handler (index.js:5-20): transport plumbing.
- The `authenticate` middleware (index.js:23-37): it reads a header and the `API_KEY`
  environment variable. Every operation here is modelled as already authenticated.
- The root route `/` (index.js:44-46), the 404 catch-all, and `app.listen`/`PORT`
  (index.js:166-174): process plumbing that does not touch the queue.
- Response messages and `console.log` calls: only the status, as a `Result`, and the
  JSON payload fields `queueSize`, `assignedPlayers` and `queue` (the list route) are
  modelled. The remove response has no record field: the removed record is
  `splice`'s return value (index.js:102) and appears only inside the message string
  (index.js:107). The model returns it beside `queueSize` in `Removed` so that its
  contract can say which record left. Likewise the match-end response has only
  `success` and `message` (index.js:151-154), and `serverId` appears only inside the
  message (index.js:153); `AcknowledgeMatchEnd` returns it as the `Ok` value so that
  its contract can say which server was acknowledged.
- Request-body values are JavaScript primitives whose numbers are unbounded
  integers. JSON numbers are doubles, and double rounding is not modelled: two ids
  above 2^53 such as 9007199254740992 and 9007199254740993 are one value to `===`
  (index.js:61, 93) but two values here. Fractional numbers, NaN, objects and arrays
  are not modelled either. So a fractional `count`, which
  the code accepts and `slice` truncates, and object ids compared by reference are
  outside the model.
- Concurrency: each handler body is synchronous, so Node runs it atomically. The
  model treats requests as a sequence of whole handler calls.
- The live array reference returned by `/listQueue`: modelled as a value snapshot.
