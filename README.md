# Thread-local storage of the interpreter, in Dafny

This project models the thread-local-storage (TLS) table that the interpreter
keeps in `src/shims/tls.rs` to emulate two kinds of TLS for the program it runs:

- **pthread-style keys**: a key counter and a map from key to an entry. Each entry
  holds one value per thread and an optional destructor. The operations are
  `create_tls_key`, `delete_tls_key`, `load_tls` and `store_tls`.
- **the macOS thread-wide destructor**: one destructor and its argument per
  thread, set with `set_thread_dtor`.

The model also covers destructor scheduling when a thread exits:

- `fetch_tls_dtor` walks the keys after a given key in ascending order. It clears
  the exiting thread's value under each key it visits, and stops at the first
  key that has both a destructor and a value, which it returns; keys after that
  one are left as they were.
- `schedule_pthread_tls_dtors` resumes after the key it last used. When that pass
  finds nothing, it starts over from the first key.
- `schedule_macos_tls_dtor` takes the thread-wide destructor out of the table
  before scheduling it.
- `schedule_next_tls_dtor_for_active_thread` marks the thread as running its
  destructors. It then pushes the thread-wide destructor and then the next
  pthread destructor, or, on Windows, the libstd thread callback.

The destructor semantics follow the `pthread_key_create` description in the
System Interfaces volume of POSIX.1 (IEEE Std 1003.1).

Thread ids, destructor instances and scalars are opaque types. NULL is the
absence of a value: a load of a thread that has no value yields `None`.

Files:

- `tls.dfy`, module `Tls`: the table as a value (`TlsState`, with the same five
  fields as the source's struct). It has the key invariant `Valid` (key 0 is
  never in use, and every key lies below the counter). Each table operation is a
  function returning the new state and the result, with its error cases.
- `tls_dtors.dfy`, module `TlsDtors`: destructor fetching and scheduling as
  functions over the table value. The loop of `fetch_tls_dtor` is the recursive
  `FetchFrom`. Its contract says which key it finds (the smallest key with both a
  destructor and a value), and which values it clears.
- `tls_data.dfy`, module `TlsMachine`: the class `TlsData`. Its fields are updated
  in place, as in the source. Each method is proved to produce the state and
  result of the corresponding function. `FetchTlsDtor` is a `while` loop over the
  keys after `start`, taken smallest first, exactly as the `range_mut` iteration
  visits them.
- `tls_runs.dfy`, module `TlsRuns`: properties over whole runs. These cover
  arbitrary sequences of operations (`Op`, `Step`, `Run`) and the exit of a
  thread whose destructors store nothing (`ExitThread`).

## Model

| member | source | states |
|---|---|---|
| `Tls.Default` | src/shims/tls.rs:46-56 | a fresh table satisfies the key invariant, has no keys, destructors, running threads or remembered keys, and its counter is 1 |
| `Tls.FirstKeyIsOne` | src/shims/tls.rs:46-71 | the first key a fresh table hands out is 1 (so 0 is never used); only a zero-bit key width rejects it |
| `Tls.CreateTlsKey` | src/shims/tls.rs:59-71 | returns the old counter and advances it by exactly one; in a valid table the key was unused, so the insert replaces nothing; the new key has the given destructor and loads NULL for every thread; other keys are untouched; fails with "out of key space" exactly when the width is below 128 bits and the key does not fit, and in that case the key has still been inserted and the counter advanced |
| `Tls.DeleteTlsKey` | src/shims/tls.rs:73-81 | succeeds exactly when the key exists; then the key is gone, every later load from it fails, and every other key loads as before; a missing key is undefined behaviour and leaves the table unchanged |
| `Tls.LoadTls` | src/shims/tls.rs:83-97 | on an existing key, yields the thread's value, or NULL when the thread has none; on a missing key, fails with undefined behaviour |
| `Tls.StoreTls` | src/shims/tls.rs:99-121 | on an existing key, a later load of the same slot yields what was stored (NULL when `None` was stored); every other slot, every destructor, the key set and the other fields are unchanged; a missing key is undefined behaviour and leaves the table unchanged |
| `Tls.SetThreadDtor` | src/shims/tls.rs:123-146 | while the thread's destructors run, fails with undefined behaviour and changes nothing; otherwise records the pair, replacing any earlier one, and reports "unsupported" exactly when the thread already had one |
| `TlsDtors.FetchFrom` | src/shims/tls.rs:179-193 | visiting the pending keys smallest first: finds nothing exactly when no pending key has both a destructor and a value for the thread; otherwise finds the smallest such key with its destructor and the value it held; the thread's value is cleared under every key visited and nothing else changes |
| `TlsDtors.FetchTlsDtor` | src/shims/tls.rs:148-194 | the same, over the keys strictly after `start` (all keys when `start` is `None`); only the exiting thread's values change, and the key set and destructors are kept |
| `TlsDtors.RestartedPass` | src/shims/tls.rs:263-270 | after a pass that found nothing, the pass that starts over from the first key finds the first key (in the original table) with a destructor and a value, and finds nothing only when no such key exists |
| `TlsDtors.SchedulePthreadFindsFirst` | src/shims/tls.rs:263-272 | a destructor that is scheduled is the first one after the last key or, when there is none after it, the first of all; its value is cleared, and `last_dtor_key` of the thread becomes its key |
| `TlsDtors.SchedulePthreadNothingLeft` | src/shims/tls.rs:263-289 | nothing is scheduled exactly when no key has both a destructor and a value for the thread; in that case the thread holds no value at all and its entry in `last_dtor_key` is removed |
| `TlsDtors.SchedulePthreadTlsDtors` | src/shims/tls.rs:257-290 | its own contract states only the frame: the step changes only the key table and the thread's `last_dtor_key` entry, which it sets to the key found or removes when nothing is found; which destructor it finds is stated by `SchedulePthreadFindsFirst` and `SchedulePthreadNothingLeft`, and exactly which values it clears by `SchedulePthreadClearsVisited` (when it finds one) and `SchedulePthreadNothingLeft` (when it does not) |
| `TlsDtors.SchedulePthreadOnlyClears` | src/shims/tls.rs:256-290 | a scheduling pass changes only the exiting thread's values and its `last_dtor_key` entry; key set, destructors, other threads' values and the other fields are kept, and so is the key invariant |
| `TlsDtors.SchedulePthreadClearsVisited` | src/shims/tls.rs:179-188 | a step that finds a destructor NULLs the thread's value under exactly the keys it visits: the keys after the last key up to the one found or, when it started over, every key after the last key and every key up to the one found; every other value, with or without a destructor, is kept |
| `TlsDtors.SchedulePthreadStep` | src/shims/tls.rs:263-272 | a step that finds a destructor picks the one the pass should pick, clears exactly the visited keys (the found key's value among them, no other value that has a destructor), and remembers the found key |
| `TlsDtors.FetchKeepsOtherDtors` | src/shims/tls.rs:179-193 | a fetch NULLs no value of the thread that has a destructor, except the one whose destructor it returns |
| `TlsDtors.SchedulePthreadKeepsOtherDtors` | src/shims/tls.rs:263-270 | across both passes of a scheduling step, no value of the thread that has a destructor is NULL-ed except the one scheduled, so no destructor call is lost |
| `TlsDtors.DtorKeysAfterClear` | src/shims/tls.rs:151-166 | a table that only lost values of the thread, keeping every value with a destructor but the one scheduled, owes exactly one destructor call fewer |
| `TlsDtors.SchedulePthreadSettlesOne` | src/shims/tls.rs:256-290 | the number of calls a step makes plus the number of values with a destructor left afterwards equals the number of such values before |
| `TlsDtors.CallsAfterClear` | src/shims/tls.rs:151-166 | a table that only lost values of the thread, keeping every value with a destructor but the one cleared, owes exactly the calls it owed before less that key's destructor on its value |
| `TlsDtors.SchedulePthreadSettlesCall` | src/shims/tls.rs:263-283 | the call a step makes, as a multiset together with the calls still owed afterwards, equals the calls owed before: the destructor it calls is the one of the key it clears, on the value that key held |
| `TlsDtors.CallsForRemove` | src/shims/tls.rs:151-166 | taking any one key out of a set of keys with destructors takes exactly its destructor call out of the calls owed |
| `TlsDtors.PthreadStepShrinks` | src/shims/tls.rs:151-166 | every destructor scheduled removes at least one of the thread's values, so the repeated passes end when destructors store nothing |
| `TlsDtors.ScheduleMacosTlsDtor` | src/shims/tls.rs:229-254 | the thread's thread-wide destructor is removed from the table; it is scheduled, with its argument, exactly when it was there |
| `TlsDtors.ScheduleNextTlsDtorForActiveThread` | src/shims/tls.rs:296-321 | the thread is marked as running its destructors; on Windows the thread callback is scheduled exactly on the first call and the table is otherwise untouched; elsewhere the thread-wide destructor is removed and pushed first, and a pthread destructor follows exactly when some key has a destructor and a value for the thread: the one the pthread pass picks (first after the last key, else first of all), called with the value it held; the thread's value is NULL-ed under exactly the keys the pass visits (so every later key, and every value with a destructor other than the one called, keeps its value), and the key found becomes the thread's `last_dtor_key`; when there is none, the thread holds no value and its `last_dtor_key` entry is removed; only the thread's values change |
| `TlsDtors.MacosDtorRunsAfterSlotFreed` | src/shims/tls.rs:312-317 | as written, when the thread has a thread-wide destructor and a value under a key with a destructor, one step pushes two calls, the pthread one last (so it runs first), and has already NULL-ed one of the thread's values |
| `TlsDtors.ScheduleNextMacosFirst` | src/shims/tls.rs:312-317 | as the comment at these lines intends: a step that schedules the thread-wide destructor schedules it alone and frees no slot; without one it is the source's step |
| `TlsRuns.ExitThreadMacosFirstFinishes` | src/shims/tls.rs:303-321 | outside Windows, thread exit with the intended step also ends with the thread holding nothing, and its calls are, as a multiset, exactly the owed calls: each value's destructor on that value once, and the thread-wide destructor once |
| `TlsMachine.TlsData.constructor` | src/shims/tls.rs:46-56 | the object starts as the fresh table |
| `TlsMachine.TlsData.CreateTlsKey` | src/shims/tls.rs:61-71 | updates the fields in place to the state, and returns the result, that `Tls.CreateTlsKey` prescribes |
| `TlsMachine.TlsData.DeleteTlsKey` | src/shims/tls.rs:73-81 | updates the fields in place as `Tls.DeleteTlsKey` prescribes |
| `TlsMachine.TlsData.LoadTls` | src/shims/tls.rs:83-97 | changes nothing and returns what `Tls.LoadTls` prescribes: an error exactly for a missing key, else the thread's value or NULL |
| `TlsMachine.TlsData.StoreTls` | src/shims/tls.rs:99-121 | updates the nested map in place as `Tls.StoreTls` prescribes |
| `TlsMachine.TlsData.SetThreadDtor` | src/shims/tls.rs:132-146 | updates the thread-wide destructors in place as `Tls.SetThreadDtor` prescribes |
| `TlsMachine.TlsData.FetchTlsDtor` | src/shims/tls.rs:167-194 | the loop removes entries as it goes, and ends in the state and with the result of `TlsDtors.FetchTlsDtor` |
| `TlsMachine.TlsData.ScheduleMacosTlsDtor` | src/shims/tls.rs:233-254 | in place, as `TlsDtors.ScheduleMacosTlsDtor` prescribes |
| `TlsMachine.TlsData.SchedulePthreadTlsDtors` | src/shims/tls.rs:257-290 | two fetches and the update of `last_dtor_key`, ending as `TlsDtors.SchedulePthreadTlsDtors` prescribes |
| `TlsMachine.TlsData.ScheduleNextTlsDtorForActiveThread` | src/shims/tls.rs:303-321 | in place, as `TlsDtors.ScheduleNextTlsDtorForActiveThread` prescribes |
| `TlsRuns.RunPreservesValid` | src/shims/tls.rs:46-71 | every table reachable from the fresh one by any sequence of operations satisfies the key invariant: key 0 is never in use and no live key lies at or above the counter |
| `TlsRuns.KeyNeverReissued` | src/shims/tls.rs:61-64 | a key handed out is never handed out again by a later creation, whatever happens in between, deletions included |
| `TlsRuns.DtorsRunningNeverShrinks` | src/shims/tls.rs:39-40 | once a thread is marked as running its destructors, it stays marked |
| `TlsRuns.ThreadDtorStaysGone` | src/shims/tls.rs:138-146 | a thread that is running its destructors and has no thread-wide destructor never gets one again |
| `TlsRuns.MacosDtorScheduledAtMostOnce` | src/shims/tls.rs:233-254 | after the first scheduling step of a thread outside Windows, no later step finds its thread-wide destructor, and every later attempt to set one fails without effect |
| `TlsRuns.WindowsCallbackScheduledOnce` | src/shims/tls.rs:307-311 | on Windows, the thread callback of a thread is scheduled at most once |
| `TlsRuns.ExitStep` | src/shims/tls.rs:303-321 | outside Windows, one exit step makes no more calls than the destructors and values it removes; its calls together with the calls still owed afterwards are, as a multiset, exactly the calls owed before; a step that schedules nothing leaves the thread with no value, thread-wide destructor or remembered key |
| `TlsRuns.DrainFinishes` | src/shims/tls.rs:151-166 | repeating a step that consumes pending work more times than there is work ends with nothing pending, after at most one call per unit of work |
| `TlsRuns.DrainSettles` | src/shims/tls.rs:151-166 | repeating a step that makes one call per destructor call it settles makes exactly the calls owed at the start, less those still owed at the end |
| `TlsRuns.DrainSettlesCalls` | src/shims/tls.rs:151-166 | repeating a step whose calls are exactly what it takes off the owed calls makes, as a multiset, exactly the calls owed at the start less those still owed at the end |
| `TlsRuns.ExitThreadFinishes` | src/shims/tls.rs:151-166 | outside Windows, when destructors store nothing, repeated scheduling at thread exit ends with the thread holding nothing, and the calls it makes are, as a multiset, exactly the owed ones: for each value that has a destructor, that destructor on that value, once, and the thread-wide destructor on its argument, once |

## Left out

- The interpreter calls in the scheduling functions are not modelled: `call_function`, `enable_thread`, `get_active_thread`, `has_terminated`, `get_total_thread_count` and `is_null`. The active thread is a parameter. The scheduled calls are returned as values (`Call`), listed in the order they are pushed. Errors raised by these calls are left out.
- The `target_os` check is a boolean parameter, `onWindows`.
- On Windows, `schedule_windows_tls_dtors` looks up the libstd thread callback by path and calls it. This is reduced to scheduling one opaque `ThreadCallback`. Its second insertion into `dtors_running` has no effect and is not repeated.
- The assertion that a pthread destructor's argument is non-NULL (src/shims/tls.rs:274) relies on the callers of `store_tls` turning a NULL value into `None` (src/shims/tls.rs:21-22). The model takes that normalisation as given: a stored value is never NULL, and the panic a stored NULL would cause is not modelled. `Scalar::null_ptr` and the data layout are not modelled.
- `trace!` logging is not modelled.
- Keys are unbounded naturals. The 128-bit counter overflowing after 2^128 - 1 creations is not modelled. The key width that `create_tls_key` checks against is given as a bit count.
- `TlsMachine.TlsData.FetchTlsDtor` takes a snapshot of the keys after `start`, then repeatedly takes the smallest one. This replaces the `BTreeMap` range cursor and visits the same keys in the same order.
- tests/ui/rename.rs holds only lint attributes and an empty `main`, and has no behaviour to model.
- The build, toolchain and history-synchronisation tooling of the repository is not part of this model.

## Findings

| source | as written | input that shows it | evidently intended | confidence | as-written member | corrected member |
|---|---|---|---|---|---|---|
| src/shims/tls.rs:312-317 | the thread-wide destructor is pushed and then `schedule_pthread_tls_dtors` runs in the same step: it NULLs a slot and pushes its destructor on top, so that destructor runs first | a thread with a thread-wide destructor and a non-NULL value under a key that has a destructor | the thread-wide destructor runs "before any TLS slots get freed": the step returns after scheduling it, and the pthread destructors follow in later steps | medium, not executed | `TlsDtors.MacosDtorRunsAfterSlotFreed` | `TlsDtors.ScheduleNextMacosFirst` |

`TlsMachine.TlsData`, `TlsRuns.Step` and `TlsRuns.ExitThread` follow the code as
written; `TlsRuns.ExitThreadMacosFirstFinishes` shows that the corrected step keeps
the same exit guarantee.
