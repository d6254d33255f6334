# Task list service: record rules and in-memory store

A Dafny model of a small to-do list service. It has two parts:

- **TaskModel** (`task_model.dfy`, from `modelo.py`) holds the task record and its request bodies. It covers the title and description bounds (3..100 and at most 500 characters), the rule that a completion time is never before the creation time, and the update-body rule that rejects "reopen" sent with a completion date. It also covers reading naive timestamps as UTC, and the derived `completada` flag. That flag is true exactly when a completion time exists and is not after "now".
- **TaskStore** (`task_store.dfy`, from `main.py`) is the process-wide task list and id counter, written as a class `Store` with fields `tasks: seq<Task>` and `nextId: int`. Its methods are the request handlers without HTTP: create, list, get, partial update and delete. A linear scan looks tasks up by id. The pure pieces these handlers use are separate functions: building a new record, the precedence that resolves the completion time, re-validation, and the filter that deletes.

`Wrappers` (`wrappers.dfy`) holds `Option` and `Result`.

Timestamps are integers (UTC instants). A request timestamp is `Naive(wall)` or `Aware(utc)`; parsing a body normalises it to UTC. The wall clock becomes a `now` parameter of `Create` and `Update`. Error responses become `Error = NotFound(id) | Invalid(reason)`: `NotFound` stands for HTTP 404 and `Invalid` for HTTP 422.

The model follows the code in these places:

- **A rejected update keeps its edit.** The handler writes the sent fields into the stored record in place. Only then does it re-validate the record. If re-validation fails, the edit stays in the store. Two examples:
  - A date earlier than the creation time, sent without the flag, leaves an incoherent record stored (`EditCanBreakCoherence`).
  - A title sent as null leaves a record with no title stored. This is why `Task.title` is an `Option`.

  A failed update might be expected to leave the record unmodified; the handler does not roll back, and `Store.Update` states what the code does.
- **A flag sent as null counts as sent.** It takes the first branch of the precedence and does nothing. A date sent with it is ignored.
- **A null date counts as sent.** When the flag is true on a completed task, or when the flag is left out, a date sent as null clears the completion time.
- **Resending a task can be rejected.** Send a task back with its status as the flag and its completion time as the date. The body is rejected when that completion time is still in the future, because it then reads as flag false with a date (`ResubmitWithStatus`). Sending back only the title and description leaves the task unchanged (`ResubmitIsIdentity`).
- **Order of checks in an update.** The body is validated before the handler runs. So an invalid body is reported as `Invalid` even when the id does not exist.

## Model

| member | source | states |
|---|---|---|
| `TaskModel.AsUtc` | modelo.py:91-96 | the result is aware; an aware stamp is returned unchanged; a naive stamp keeps its wall-clock reading as its UTC instant |
| `TaskModel.AsUtcIdempotent` | modelo.py:94-96 | normalising twice gives the same stamp as normalising once |
| `TaskModel.InstantOpt` | modelo.py:19-23 | an absent proposal stays absent and a present one stays present after normalisation |
| `TaskModel.InstantField` | modelo.py:40-41 | normalising an update date keeps "left out", "sent as null" and "sent with a value" apart |
| `TaskModel.InstantOptOfAware` | modelo.py:94-96 | aware instants pass through normalisation unchanged |
| `TaskModel.BuildTask` | modelo.py:45-96 | a record is accepted iff the title is present with length in [3, 100], the description is absent or at most 500 long, and the normalised completion time (when present) is not before the creation time, with equality accepted; an accepted record carries exactly the normalised inputs and is valid; with fitting fields the only rejection is completion before creation |
| `TaskModel.Completed` | modelo.py:56-74 | a task without a completion time is never completed |
| `TaskModel.CompletedIff` | modelo.py:64-74 | completed iff a completion time is present and is at or before now |
| `TaskModel.CompletedMonotone` | modelo.py:68-74 | once completed at some instant, completed at every later instant |
| `TaskModel.CompletedTurnsTrueAtDeadline` | modelo.py:59-62 | a future completion time reads as pending now and as completed at that time |
| `TaskModel.ParseCreate` | modelo.py:6-23 | a creation body is accepted iff the title is present with length in [3, 100] and the description fits in 500; the accepted request carries the body's text and its proposal normalised to UTC |
| `TaskModel.ParseUpdate` | modelo.py:25-42 | an update body is accepted iff a non-null title has length in [3, 100], a non-null description fits in 500, and it is not "flag false with a non-null date"; when the text fields fit, that combination is the only rejection; presence and nulls are kept and a date is normalised |
| `TaskModel.NullFieldsAccepted` | modelo.py:30-31 | a null title and a null description never cause a rejection |
| `TaskStore.IndexOf` | main.py:22-27 | the position of the first task with the id; none exactly when no stored task has that id |
| `TaskStore.Without` | main.py:160 | a task survives iff it was stored and its id differs from the deleted one |
| `TaskStore.WithoutConcat` | main.py:160 | the filter distributes over concatenation, so survivors keep their relative order |
| `TaskStore.WithoutAbsent` | main.py:160 | filtering an id no task carries leaves the list unchanged |
| `TaskStore.WithoutUnique` | main.py:156-160 | with distinct ids, deleting removes exactly the entry at the found position and nothing else |
| `TaskStore.Construct` | main.py:52-75 | creation succeeds iff the fields fit and there is no proposal or it is not before now; the task then has the given id, creation time now, the proposal as its completion time, and is valid; otherwise the reason is "proposal before creation" |
| `TaskStore.CreatedWithoutProposalIsPending` | main.py:52-70 | a task created without a proposal has no completion time and reads as not completed at every instant |
| `TaskStore.ResolveCompletion` | main.py:120-130 | the new completion time is the old one, none, now, or the sent date; it is unchanged when neither flag nor date is sent; a new non-empty time comes from a true flag or from the sent date |
| `TaskStore.CompletePending` | main.py:121-123 | flag true on a pending task stamps it with the sent date, or with now when the date is left out or null |
| `TaskStore.CompleteCompleted` | main.py:121-125 | flag true on a completed task keeps its time when no date is sent, takes the sent date when one is sent, and clears it when the date is sent as null |
| `TaskStore.ReopenClears` | main.py:126-127 | flag false clears the completion time whatever it was |
| `TaskStore.DateAloneOverwrites` | main.py:129-130 | with the flag left out, a sent date (or a sent null) replaces the completion time |
| `TaskStore.NullFlagIgnoresDate` | main.py:120-128 | a flag sent as null leaves the completion time as it was, even when a date is sent |
| `TaskStore.Edit` | main.py:112-130 | an edit keeps the id and creation time; a sent title or description (even null) is written and an unsent one kept; the completion time is the one the precedence resolves, unchanged when neither flag nor date is sent |
| `TaskStore.Revalidate` | main.py:132-133 | re-validating a record succeeds iff the record is valid and then gives the same record; a missing title is reported as such; with fitting fields the only failure is completion before creation |
| `TaskStore.ResubmitIsIdentity` | main.py:112-117 | sending back a valid task's own title and description is accepted and leaves the task unchanged |
| `TaskStore.ResubmitWithStatus` | main.py:112-130 | sending back a valid task with its status as the flag and its completion time as the date is rejected iff the completion time is in the future; otherwise the task is unchanged |
| `TaskStore.EditCanBreakCoherence` | main.py:129-144 | for every valid record, a date before its creation time sent alone is written into it, and the result fails re-validation as "completion before creation" |
| `TaskStore.AppendKeepsIdsFresh` | main.py:64-78 | appending a task with the counter's id and bumping the counter keeps ids positive, distinct and below the counter |
| `TaskStore.ReplaceKeepsIdsFresh` | main.py:135-137 | replacing an entry by a record with the same id keeps the id invariant |
| `TaskStore.RemoveKeepsIdsFresh` | main.py:160 | removing one entry keeps the id invariant |
| `TaskStore.Store.constructor` | main.py:16-18 | the store starts empty with the counter at 1 |
| `TaskStore.Store.Find` | main.py:22-27 | the linear scan returns the position of the first task with the id, or none when no task has it |
| `TaskStore.Store.All` | main.py:81-86 | listing returns the stored tasks in insertion order |
| `TaskStore.Store.Get` | main.py:88-96 | a found task is the first stored task with the requested id; not found is reported exactly when no stored task has that id |
| `TaskStore.Store.Create` | main.py:39-79 | an invalid body or a proposal earlier than now is rejected, with the list and the counter unchanged; otherwise one task with the old counter as id, creation time now and the proposal as completion time is appended, earlier entries are unchanged, and the counter grows by one; the id invariant is kept |
| `TaskStore.Store.Update` | main.py:98-146 | an invalid body, or an id no task has, changes nothing; otherwise the edited record replaces the found entry at the same position; the result is that record when it is valid and "invalid" when it is not, and the edit stays stored in both cases; length, every id and the counter are unchanged |
| `TaskStore.Store.Delete` | main.py:149-162 | an id no task has is reported not found and changes nothing; otherwise exactly the entry with that id is removed and the rest keep their order; the id invariant is kept |

## Left out

- HTTP: app construction, routing, status codes, the redirect from `/` to the docs page (main.py:31-36), and JSON/ISO-8601 rendering of records, including rendering `completada` into responses.
- Pydantic machinery: lax type coercion, and reporting every violated rule at once. The model reports one reason per rejection.
- The wall clock: the handlers take `now` as a parameter.
- Time-zone offsets: an aware timestamp is represented by its UTC instant, and offset arithmetic is not modelled. Python's refusal to compare naive with aware datetimes never arises, because every compared value is normalised first.
- Object identity: records are values. The handler edits the stored object through the reference the lookup returned. The model writes the edited record back at the looked-up position.
- The fallback `return tarea_existente` after the write-back loop (main.py:146) cannot be reached. The write-back loop always finds the id the lookup found, so the model has no such branch.
- Concurrent requests: the module-level list and counter have no synchronisation, and the model is sequential.
