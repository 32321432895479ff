# Bank_Auto worker reconciliation, modelled in Dafny

The bank service keeps one background worker thread per account holder. The
worker repeatedly prints the holder's credentials until its stop event is set.
A background loop, `check_account_holders`, reads the whole account-holder
table every five seconds. Holding `threads_lock`, it then walks the rows in order
and updates the module-level dictionary `threads`, which maps a username to a
`(thread, stop_event)` pair:

- start: if the row is not paused and its username has no entry, a new stop
  event and thread are created and stored under the username;
- stop: if the row is paused and its username has an entry, the entry is popped
  and its stop event is set.

This project models one such tick. A tick is atomic, which is what the lock
provides.

- `reconciliation.dfy`, module `Reconciliation`: the tick as values.
  - `Holder` is a row: username, password and a nullable `is_paused`.
  - `Handle` is a stored pair. Creating a thread is modelled as minting a fresh id.
  - `State` holds the dictionary, the next id, the set of handles whose stop
    event is set, and every handle ever created.
  - `Step` is one loop iteration and `Run` is a whole tick.
  - The lemmas state what a tick does to the dictionary.
- `threads.dfy`, module `Threads`: class `Registry`, with the dictionary as a
  `map` field updated in place. Its `Tick` method runs the same `for` loop as
  the source and is proved equal to `Run`.

Python truthiness of the nullable `is_paused` is modelled exactly. `None` is
"not paused" at both checks: `not None` is true for the start check, and `None`
is falsy for the stop check.

### Behaviour worth knowing

- A holder whose row is deleted from the table is never stopped. The tick
  only acts on the rows it receives, so the worker of a deleted holder stays
  registered and is never told to stop (`DeletedHolderKeepsRunning`,
  `MissingUntouched`).
- Entries are keyed by `username`, not by the row id. Two rows with one
  username share one entry, and the last of them decides whether it is
  registered. If a paused row of a username is followed by a non-paused one,
  every tick stops that worker and starts a new one
  (`PausedThenUnpausedRestarts`, `DisagreeingRowsFlap`).
- A failing query raises out of `check_account_holders`. The loop body is a
  `try`/`finally` with no `except` (Bank/app.py:246-261), so the exception ends
  the background thread and no further ticks run.
- Setting a stop event does not wait for the worker. The worker notices the
  event only after its current `time.sleep(5)` (Bank/app.py:232-234), and
  nothing in the code joins or stops the threads at exit.

## Model

| member | source | states |
|---|---|---|
| Threads.Registry.constructor | Bank/app.py:239 | the dictionary starts empty, no stop event is set and the registry invariant holds |
| Threads.Registry.Tick | Bank/app.py:248-259 | the in-place loop leaves exactly the state `Run` describes and keeps the invariant. Each listed username is registered iff its last row is not paused. Unlisted usernames keep their entry or stay absent. No registered worker has its stop event set |
| Reconciliation.Step | Bank/app.py:250-259 | after one row, its username is registered iff the row is not paused (`None` counts as not paused). Every other username is untouched. Stop events are never unset, and every worker it creates has an id at or above the old next id and below the new one, so ids are never reused |
| Reconciliation.Run | Bank/app.py:249-259 | a tick only adds stop events and created workers, never lowers the next id, and gives every worker it creates an id from the range it consumed |
| Reconciliation.StepKeepsInv | Bank/app.py:250-259 | one iteration preserves the invariant: every entry is stored under its own username, and each created worker is either registered or signalled, never both |
| Reconciliation.RunKeepsInv | Bank/app.py:249-259 | a whole tick preserves that invariant |
| Reconciliation.OneUnsignalledPerUsername | Bank/app.py:250-254 | under the invariant, two workers of one username that have not been told to stop are the same worker, namely the registered one |
| Reconciliation.LastRowDecides | Bank/app.py:249-259 | after a tick, a username in the listing is a key iff its last row is not paused |
| Reconciliation.MissingUntouched | Bank/app.py:249-259 | a username with no row keeps exactly its entry, or stays absent |
| Reconciliation.MissingNotSignalled | Bank/app.py:257-259 | the worker of a username with no row has not been told to stop after the tick |
| Reconciliation.RunningKept | Bank/app.py:250 | start is idempotent: a registered username with no paused row keeps the same worker, and no worker of that username is created during the tick, so the stored password is not replaced |
| Reconciliation.NewEntryFresh | Bank/app.py:250-254 | a new or replaced entry has a fresh id never used before, and carries its own username. Its password comes from a non-paused row of that username, and its stop event is not set |
| Reconciliation.NewEntryPassword | Bank/app.py:250-254 | a new or replaced entry carries the password of the row that inserted it: a non-paused row with no paused row of the username after it, whose previous row of the username is paused, or which is the username's first row when it was not registered |
| Reconciliation.RemovedSignalled | Bank/app.py:257-259 | an entry is removed or replaced only if some row of its username is paused, and the removed worker has its stop event set |
| Reconciliation.PausedRowStops | Bank/app.py:257-259 | conversely, a registered username with any paused row has its worker's stop event set, and its entry removed or replaced |
| Reconciliation.PausedThenUnpausedRestarts | Bank/app.py:249-259 | a username with a paused row followed by a non-paused last row ends every tick registered with a newly created worker, and any worker it had is told to stop |
| Reconciliation.SignalsOnlyOwnWorkers | Bank/app.py:257-259 | a tick sets only the stop events of workers registered at its start or created by itself. No worker still in the dictionary is signalled |
| Reconciliation.SettledRunIsQuiet | Bank/app.py:250-259 | a tick over rows whose paused flags already match the dictionary changes nothing |
| Reconciliation.SecondTickQuiet | Bank/app.py:249-259 | if the rows of each username agree on being paused, a second tick on the same listing starts nothing, stops nothing and leaves the dictionary unchanged |
| Reconciliation.DisagreeingRowsFlap | Bank/app.py:249-259 | from any registry, with a paused row of a username followed by a non-paused last row, the second tick over the same listing tells the first tick's worker to stop and registers a different one, so `threads` changes |
| Reconciliation.DeletedHolderKeepsRunning | Bank/app.py:247-259 | a holder that was started and then disappears from the table keeps its worker registered, with its stop event unset, after the next tick |
| Reconciliation.SpawnedBeforeTick | Bank/app.py:250-254 | a registered worker whose id predates the tick was already registered when the tick began |
| Reconciliation.LastIndex | Bank/app.py:249 | the position it returns is the last row of the username, and `None` means the username has no row |

## Left out

- The HTTP endpoints and request models (Bank/app.py:13-227): database create, read, update and delete through sessions. This includes the column-name check in `update_account_holder`.
- Bank/db.py: engine, session and table declarations, with no logic. The only thing used from it is that `is_paused` is nullable.
- The worker `print_account_holder_details` (Bank/app.py:230-236): it prints the credentials every five seconds until its stop event is set. The model records only whether that event is set.
- The outer `while True` loop and the 5-second sleep. The model also leaves out opening and closing the session, creating and starting `threading.Thread`, `threads_lock`, and the startup hook (Bank/app.py:244-247, 252-255, 260-268). These are timing, concurrency and I/O; each tick is taken as atomic, as the lock makes it. The query result is the `listing` parameter.
- A failing query: it ends the background loop, and the model has no loop around the tick to end.
- Decimal and float columns such as `balance_limit` and `min_balance`: the tick does not read them.
- SecondTickQuiet: it holds only when the rows of each username agree on being paused. `DisagreeingRowsFlap` shows that a paused row followed by a non-paused last row makes the second tick stop the worker and start a new one.
- Thread lifetime: the model records whether a worker's stop event is set, not whether its thread is still alive. A signalled worker stays alive until its current sleep ends, so after a stop and a restart two threads of one username may overlap for up to one sleep.
