# Dormitory bathroom admission controller, in Dafny

The repository is a set of lab exercises built around a shared bathroom
with a few cabins. Students of either sex ask to enter it. The bathroom
may hold several students of one sex, never of both sexes at once.
Once one sex has had a long run of admissions while the other sex waits,
the run must stop. Each variant keeps one record (`struct Bathroom`,
`Br`, `Bathroom`) with these fields:

- the total and the occupied cabins;
- the sex inside (`nobody`, `man`, `woman`, or 0/1/2 in the server);
- the waiting counters;
- a run counter (`streak`, `consecutive_entries`).

Three operations act on this record:

- `canEnter` decides admission;
- `enterBathroom` counts the caller as waiting, blocks until `canEnter`
  holds, then takes a cabin;
- `leaveBathroom` / `exitBathroom` frees a cabin.

The model has one module per variant:

| module | file modelled | what is particular to it |
|---|---|---|
| `Lab1Task` | lab1/code/task.c | threads; fixed threshold `MAX_STREAK_FOR_STATE` = 5; the `max_streak` field is never read |
| `Lab1Bathroom` | lab1/code/src/bathroom.c, lab1/code/include/bathroom.h | the same controller over a struct without `max_streak`; proved to agree with `Lab1Task` step for step |
| `Lab2Info` | lab2/info/code/task.c | processes; threshold is the `max_streak` field; a caller is counted as waiting only if its first check fails (`must_wait`) |
| `Lab2Task` | lab2/code/task.c | as `Lab2Info`, plus `force_change` / `last_state`: the last student out of a run of `max_streak` or more forbids that sex to re-enter the empty bathroom |
| `Lab4Server` | lab4/code/server.c | socket server; unless a forced switch is pending, an empty bathroom goes to the sex with more waiters, with the sex that did not leave last winning a tie; a forced switch set while the other sex waits; the command dispatch of `handleClient` |

`Common` holds what every variant shares:

- the sex type;
- a step of one actor (`Event`: arrival, admission, departure, or
  abandonment when the server stops);
- per-sex counts of the students let in and of the callers left waiting;
- the segregation predicate.

Each variant has two layers:

- A value layer:
  - a `Record` datatype;
  - pure transition functions with contracts;
  - `Run`, which folds a sequence of events over the record. It plays the
    part of the interleaving of concurrent callers under the mutex.

  Safety, counter conservation and hand-over are proved about `Run`.
- An imperative layer: a `Bathroom` class with the same fields. Its
  methods carry out the C code statement by statement. Each method is
  proved to move its snapshot exactly as the transition function does, and
  to keep the invariant; `Lab4Server.Bathroom.ExitBathroom` keeps it only
  when someone was inside, as `exitBathroom` does not check occupancy. `enterBathroom` is split at its wait loop: the
  code before the loop is `BeginEnter`, the code after it is
  `FinishEnter`, which requires the condition on which the loop exits.

Each variant is a program of its own and repeats the controller, so each
module has its own definitions. Lemmas tie them together:

- `Lab1Bathroom.RunAgreesWithThreadVariant` ties the two lab1 files;
- `Lab2Info.AgreesWithThreadVariant` ties lab2/info to lab1;
- `Lab2Task.AgreesWithInfoVariant` ties lab2 to lab2/info.

Behaviour of the code worth knowing before reading the lemmas:

- **lab2/code/task.c sets `force_change` on every drain after a run of
  `max_streak` or more**, whether or not the other sex waits. A sex that
  is alone can therefore be locked out of an empty bathroom.
  `Lab2Task.LoneSexLockedOut` exhibits this. It takes four cabins,
  threshold 5, and men only: a tenth event leaves a man refused while no
  woman is waiting. The `else` branch at lab2/code/task.c:205 clears the
  flag only after a shorter run, and the admission check at
  lab2/code/task.c:109-122 refuses a long run only while the other sex
  waits.
- **lab4/code/server.c does not reset the run when the same sex re-takes
  an empty bathroom.** `consecutive_entries` keeps counting (`Enter`);
  lab4/code/server.c:169-175 restarts it only when the entering sex
  differs from `last_gender` or nobody has left yet.
- **lab1 has no hand-over at all.** An empty bathroom admits either sex
  (`Lab1Task.Leave`), and `max_streak` is ignored
  (`Lab1Task.MaxStreakIgnored`). So lab1 does not make the next admission
  after a bounded run go to the other sex.
- **lab4 settles an empty bathroom by the waiters**
  (lab4/code/server.c:112-125). A pending forced switch comes first: then
  only the sex that did not leave last is admitted, whoever waits
  (lab4/code/server.c:104-109). Otherwise, when both sexes wait, the sex with more
  waiters is admitted. On a tie, the sex that did not leave last is
  admitted; if nobody has left yet, either sex is. When only one sex
  waits, or none, any caller is admitted.

## Model

| member | source | states |
|---|---|---|
| `Lab1Task.Initial` | lab1/code/task.c:176-188 | the initial record is empty, keeps the invariant, has no waiters, and starts its run counter at 5 |
| `Lab1Task.CanEnter` | lab1/code/task.c:64-95 | a full bathroom refuses; an empty one with a free cabin admits anyone; an occupied one admits only its own sex, and admits it iff the run is below 5 or nobody of the other sex waits |
| `Lab1Task.Arrive` | lab1/code/task.c:104-111 | the caller's waiting counter goes up by one and nothing else changes; the caller's own count does not affect its admission |
| `Lab1Task.Enter` | lab1/code/task.c:119-133 | a cabin is taken by the caller's sex; the run restarts at 1 in an empty bathroom and grows by 1 otherwise; the caller leaves the waiting count; the invariant is kept |
| `Lab1Task.Leave` | lab1/code/task.c:152-162 | a cabin is freed; the last one out resets the sex and the run; waiters are untouched; an emptied bathroom admits either sex; the invariant is kept |
| `Lab1Task.RunIsSafe` | lab1/code/task.c:64-174 | along any interleaving of arrivals, admissions and departures, the invariant holds and the students inside are all of the sex the record names |
| `Lab1Task.ReachableIsSafe` | lab1/code/task.c:176-188 | every state reachable from the initial record is safe in the above sense |
| `Lab1Task.RunCountsWaiters` | lab1/code/task.c:106-124 | each waiting counter moves by exactly the arrivals minus the admissions of that sex: every increment has one decrement |
| `Lab1Task.EnterRestoresWaiting` | lab1/code/task.c:102-146 | a whole `enterBathroom` that is admitted at once leaves both waiting counters as they were |
| `Lab1Task.MaxStreakIgnored` | lab1/code/task.c:84-92 | admission does not depend on the `max_streak` field |
| `Lab1Task.Bathroom.constructor` | lab1/code/task.c:176-188 | the global record starts as `Initial` and valid |
| `Lab1Task.Bathroom.BeginEnter` | lab1/code/task.c:104-111 | the record moves as `Arrive` and stays valid |
| `Lab1Task.Bathroom.FinishEnter` | lab1/code/task.c:119-135 | once the wait loop exits, the record moves as `Enter` and stays valid |
| `Lab1Task.Bathroom.EnterBathroom` | lab1/code/task.c:102-146 | a call admitted at once moves the record as `Enter` after `Arrive`, with the waiting counters unchanged |
| `Lab1Task.Bathroom.LeaveBathroom` | lab1/code/task.c:152-174 | the record moves as `Leave` and stays valid |
| `Lab1Bathroom.Initial` | lab1/code/src/bathroom.c:92-103 | four cabins, empty, no waiters, run counter at 5, and both sexes may enter |
| `Lab1Bathroom.CanEnter` | lab1/code/src/bathroom.c:12-29 | the same admission rule as the thread variant, with the threshold from lab1/code/include/bathroom.h |
| `Lab1Bathroom.Arrive` | lab1/code/src/bathroom.c:33-37 | the caller's waiting counter goes up by one; its admission is unaffected |
| `Lab1Bathroom.Enter` | lab1/code/src/bathroom.c:43-54 | a cabin is taken by the caller's sex; the run restarts or grows; the invariant is kept |
| `Lab1Bathroom.Leave` | lab1/code/src/bathroom.c:72-82 | a cabin is freed; the last one out resets the sex and run; an emptied bathroom admits either sex |
| `Lab1Bathroom.AgreesWithThreadVariant` | lab1/code/src/bathroom.c:12-89 | admission, arrival, entry, departure and the invariant coincide with those of lab1/code/task.c, whatever its `max_streak` holds |
| `Lab1Bathroom.RunAgreesWithThreadVariant` | lab1/code/src/bathroom.c:12-89 | every interleaving runs alike in both lab1 files and ends in the same record |
| `Lab1Bathroom.ReachableIsSafe` | lab1/code/src/bathroom.c:92-103 | from the initial record, every reachable state keeps the invariant, is segregated, and its waiting counters count exactly the callers still waiting |
| `Lab1Bathroom.Bathroom.constructor` | lab1/code/src/bathroom.c:92-103 | the global record starts as `Initial` and valid |
| `Lab1Bathroom.Bathroom.BeginEnter` | lab1/code/src/bathroom.c:31-37 | the record moves as `Arrive` and stays valid |
| `Lab1Bathroom.Bathroom.FinishEnter` | lab1/code/src/bathroom.c:43-56 | once the wait loop exits, the record moves as `Enter` and stays valid |
| `Lab1Bathroom.Bathroom.EnterBathroom` | lab1/code/src/bathroom.c:31-70 | a call admitted at once moves the record as `Enter` after `Arrive`, with the waiting counters unchanged |
| `Lab1Bathroom.Bathroom.LeaveBathroom` | lab1/code/src/bathroom.c:72-89 | the record moves as `Leave` and stays valid |
| `Lab2Info.Initial` | lab2/info/code/task.c:220-254 | empty record with threshold `max_streak`, run 0, no waiters, invariant holds |
| `Lab2Info.CanEnter` | lab2/info/code/task.c:70-98 | a full bathroom refuses; an empty one admits anyone; an occupied one admits only its own sex, and admits it iff the run is below `max_streak` or nobody of the other sex waits |
| `Lab2Info.Arrive` | lab2/info/code/task.c:108-113 | a caller that may enter at once is not counted; one that must wait is counted once; its admission is unaffected |
| `Lab2Info.Enter` | lab2/info/code/task.c:120-132 | the caller's count comes down under the same `must_wait` that raised it; a cabin is taken; the run restarts or grows; the invariant is kept |
| `Lab2Info.Leave` | lab2/info/code/task.c:158-170 | a cabin is freed; the last one out resets the sex and run; an emptied bathroom admits either sex |
| `Lab2Info.AgreesWithThreadVariant` | lab2/info/code/task.c:70-98 | with `max_streak` at 5 admission is that of lab1/code/task.c, and a caller who waited enters the same way |
| `Lab2Info.RunIsSafe` | lab2/info/code/task.c:70-180 | along any interleaving, the invariant holds, the students inside are of one sex, and the waiting counters move by exactly the callers left waiting |
| `Lab2Info.ReachableIsSafe` | lab2/info/code/task.c:220-254 | every state reachable from the initial record is safe, and its counters count exactly the callers still waiting |
| `Lab2Info.EnterRestoresWaiting` | lab2/info/code/task.c:108-123 | `must_wait` is computed once, so a call returns the caller's count to where it was before the call |
| `Lab2Info.Bathroom.constructor` | lab2/info/code/task.c:220-254 | the shared record starts as `Initial` and valid |
| `Lab2Info.Bathroom.BeginEnter` | lab2/info/code/task.c:104-113 | returns `must_wait` as the failure of `canEnter`; the record moves as `Arrive` |
| `Lab2Info.Bathroom.FinishEnter` | lab2/info/code/task.c:120-132 | once the wait loop exits, the record moves as `Enter` with that `must_wait` |
| `Lab2Info.Bathroom.EnterBathroom` | lab2/info/code/task.c:104-152 | a caller that may enter at once takes a cabin without touching the waiting counters |
| `Lab2Info.Bathroom.LeaveBathroom` | lab2/info/code/task.c:158-180 | the record moves as `Leave` and stays valid |
| `Lab2Task.Initial` | lab2/code/task.c:342-382 | empty record with no hand-over pending, `last_state` nobody, no waiters; the invariant holds |
| `Lab2Task.CanEnter` | lab2/code/task.c:82-126 | a full bathroom refuses; an empty one refuses exactly the sex a pending hand-over names; an occupied one admits only its own sex, and admits it iff the run is below `max_streak` or nobody of the other sex waits |
| `Lab2Task.Arrive` | lab2/code/task.c:136-141 | the caller is counted only when it must wait; its admission is unaffected |
| `Lab2Task.Enter` | lab2/code/task.c:148-165 | a cabin is taken; taking an empty bathroom restarts the run and completes any pending hand-over, which the caller's sex was allowed to take; the invariant is kept |
| `Lab2Task.Leave` | lab2/code/task.c:191-210 | a cabin is freed; the last one out sets the hand-over flag iff the run reached `max_streak`, and then records its sex; otherwise the flag is cleared |
| `Lab2Task.DrainForcesHandover` | lab2/code/task.c:197-210 | draining a run of `max_streak` or more leaves an empty bathroom that refuses that sex and admits the other |
| `Lab2Task.LoneSexLockedOut` | lab2/code/task.c:199-206 | with men only, four cabins and threshold 5, ten events leave a man refused by an empty bathroom with no woman waiting |
| `Lab2Task.AgreesWithInfoVariant` | lab2/code/task.c:82-224 | without a pending hand-over, admission, arrival and entry are exactly those of lab2/info/code/task.c and leave none pending; departures differ only in the hand-over fields |
| `Lab2Task.RunIsSafe` | lab2/code/task.c:82-224 | along any interleaving, the invariant (including that a pending hand-over names a sex and the bathroom is empty) holds, the students inside are of one sex, and the waiting counters are conserved |
| `Lab2Task.ReachableIsSafe` | lab2/code/task.c:342-382 | every state reachable from the initial record is safe, and its counters count exactly the callers still waiting |
| `Lab2Task.ForceChangeHandsOver` | lab2/code/task.c:92-100 | once a hand-over is pending, the next student admitted is of the sex opposite to `last_state` |
| `Lab2Task.EnterRestoresWaiting` | lab2/code/task.c:136-151 | `must_wait` is computed once, so a call returns the caller's count to where it was before the call |
| `Lab2Task.Bathroom.constructor` | lab2/code/task.c:342-382 | the shared record starts as `Initial` and valid |
| `Lab2Task.Bathroom.BeginEnter` | lab2/code/task.c:132-141 | returns `must_wait`; the record moves as `Arrive` |
| `Lab2Task.Bathroom.FinishEnter` | lab2/code/task.c:148-165 | once the wait loop exits, the record moves as `Enter` with that `must_wait` |
| `Lab2Task.Bathroom.EnterBathroom` | lab2/code/task.c:132-186 | a caller that may enter at once takes a cabin without touching the waiting counters |
| `Lab2Task.Bathroom.LeaveBathroom` | lab2/code/task.c:191-224 | the record moves as `Leave` and stays valid |
| `Lab4Server.GenderCode` | lab4/code/server.c:48 | 0 codes an empty bathroom, `GENDER_MALE` men and `GENDER_FEMALE` women, each code one state |
| `Lab4Server.StatusString` | lab4/code/server.c:83-90 | the label is "???" exactly for codes other than 0, 1 and 2 |
| `Lab4Server.StatusStringsDistinct` | lab4/code/server.c:83-90 | the three states have pairwise different labels |
| `Lab4Server.Initial` | lab4/code/server.c:429-446 | empty bathroom with the given cabins and threshold, nobody left last, no forced switch, no waiters, no entries |
| `Lab4Server.CanEnter` | lab4/code/server.c:95-141 | a full bathroom refuses; an empty one with a forced switch admits exactly the sex that did not leave last; with both sexes waiting it admits the majority, and on a tie the sex that did not leave last; otherwise anyone; an occupied one admits only its own sex, and only when no switch is forced |
| `Lab4Server.Arrive` | lab4/code/server.c:150-151 | the caller's waiting counter goes up by one and nothing else changes |
| `Lab4Server.Abandon` | lab4/code/server.c:158-166 | a caller denied because the server stopped undoes exactly its arrival |
| `Lab4Server.StoppedEntryChangesNothing` | lab4/code/server.c:146-166 | a whole call that finds the server stopped leaves the record as it was |
| `Lab4Server.Enter` | lab4/code/server.c:158-190 | a cabin is taken; a sex other than the last to leave restarts the run at 1 and clears the switch, the same sex continues the run; the switch is then forced iff the run has reached `max_consecutive` with the other sex waiting; the statistics count the entry; the invariant is kept |
| `Lab4Server.Exit` | lab4/code/server.c:214-221 | a cabin is freed and the leaver recorded as `last_gender`; the last one out empties the state; the run and the switch are kept; the invariant is kept when someone was inside |
| `Lab4Server.UnmatchedExitBreaksInvariant` | lab4/code/server.c:217-221 | an exit with nobody inside drives the occupied count to -1, since the server does not check its client |
| `Lab4Server.ForcedSwitchInEmptyBathroom` | lab4/code/server.c:102-109 | an empty bathroom with a forced switch refuses the sex that left last and admits the other |
| `Lab4Server.Dispatch` | lab4/code/server.c:289-354 | `CMD_CHECK_ENTRY`, `CMD_ENTER`, `CMD_EXIT` and `CMD_GET_STATUS` select the check, enter, exit and status handlers; every other code is unknown |
| `Lab4Server.CommandCode` | lab4/code/server.c:25-28 | each command has a code between 1 and 4 |
| `Lab4Server.DispatchRoundTrip` | lab4/code/server.c:25-28 | the server carries out every command under the code the client sends for it, and each code names one command |
| `Lab4Server.StepIsSafe` | lab4/code/server.c:146-238 | one arrival, admission, departure or abandonment keeps the invariant and segregation, moves the waiting counts by that event's waiters, and keeps the cabin count |
| `Lab4Server.RunIsSafe` | lab4/code/server.c:146-238 | along any interleaving, the invariant holds, the students inside are of one sex, and the waiting counters are conserved |
| `Lab4Server.ReachableIsSafe` | lab4/code/server.c:429-446 | every state reachable from `initBathroom` is safe and counts exactly the callers still waiting |
| `Lab4Server.ForcedSwitchHandsOver` | lab4/code/server.c:102-137 | once a switch is forced against a sex, whatever arrivals, departures and abandonments follow, the next student admitted is of the other sex |
| `Lab4Server.RunBound` | lab4/code/server.c:184-190 | an admission that brings a run to `max_consecutive` while the other sex waits makes the next admission go to the other sex |
| `Lab4Server.RunKeepsSwitchAwaited` | lab4/code/server.c:184-190 | while the server runs, a forced switch always has a student of the other sex waiting to take it |
| `Lab4Server.EmptyBathroomAdmitsAWaiter` | lab4/code/server.c:101-129 | in such a state an empty bathroom with a cabin admits some waiting sex whenever anyone waits |
| `Lab4Server.ServerNeverLocksOut` | lab4/code/server.c:95-141 | from `initBathroom`, while the server runs, an empty bathroom never refuses every waiting caller |
| `Lab4Server.Bathroom.constructor` | lab4/code/server.c:429-446 | the global record starts as `Initial` and valid |
| `Lab4Server.Bathroom.BeginEnter` | lab4/code/server.c:146-151 | from any state, the record moves as `Arrive`; a valid record stays valid |
| `Lab4Server.Bathroom.FinishEnter` | lab4/code/server.c:158-208 | once the wait loop exits: with the server stopped the record moves as `Abandon` and the answer is `RESP_DENIED`; otherwise as `Enter`, answering `RESP_OK`; a valid record stays valid |
| `Lab4Server.Bathroom.EnterBathroom` | lab4/code/server.c:146-209 | a call whose wait loop stops at once is denied with nothing changed when the server is stopped, and otherwise admitted as `Enter` after `Arrive`; a valid record stays valid |
| `Lab4Server.Bathroom.ExitBathroom` | lab4/code/server.c:214-238 | the record moves as `Exit`; it stays valid when someone was inside |
| `Lab4Server.Bathroom.GetStatus` | lab4/code/server.c:243-249 | from any state, returns the state code, the occupied and total cabins; on a valid record the code is 0 exactly when nobody is inside, and occupancy is within capacity |
| `Lab4Server.Bathroom.CheckEntry` | lab4/code/server.c:291-297 | answers `RESP_OK` exactly when `canEnter` holds, else `RESP_DENIED`, without waiting |
| `Lab4Server.Bathroom.HandleCommand` | lab4/code/server.c:289-354 | each command's reply and effect: a check answers `canEnter`; an enter answers the admission; an exit always answers `RESP_OK`; a status request returns three words; an unknown code is denied and changes nothing; any state is accepted, and a valid record stays valid unless an exit finds nobody inside |

## Left out

- Concurrency itself: the mutexes, condition variables, `pthread_cond_broadcast`, threads, `fork` and shared `mmap` are not modelled. The interleaving of callers is the event sequence given to `Run`, where each event is one critical section. lab2/code/task.c takes `canEnter` under `dataMutex` inside `condMutex`; the model treats the two as one lock.
- Liveness: the model proves only that in lab4, while the server runs, an empty bathroom with a cabin admits some sex that has a waiter (`Lab4Server.ServerNeverLocksOut`). It does not prove that every waiter is eventually admitted, that waiters are woken, or that departures happen.
- The wait loop: `EnterBathroom` in every variant models a call whose loop exits at its first test. A caller that waits is `BeginEnter`, other callers' steps, then `FinishEnter`; in the event model these are `Arrival`, other events, `Entry`.
- The student drivers (`studentThread`, `studentProcess`, `main`), random shower times, `random_number`, clocks and timing statistics (`timespec_diff`, `total_busy_time`, `getElapsedTime`, `start_time`, `printStatistics`), and all `printf` logging.
- Command-line parsing (`initVarsFromCMD`, `atoi`): the cabin count and threshold it may set are parameters of `Initial`. Without arguments the server's `main` uses 3 cabins and threshold 5 (lab4/code/server.c:469-470); the thread and process variants start with 4 cabins (lab1/code/task.c:180, lab2/info/code/task.c:236).
- Lab1Task.Bathroom.EnterBathroom: requires that the caller may enter at once; a caller that waits is `BeginEnter`, other callers' steps, then `FinishEnter`.
- Lab1Bathroom.Bathroom.EnterBathroom: as `Lab1Task.Bathroom.EnterBathroom`.
- Lab2Info.Bathroom.EnterBathroom: as `Lab1Task.Bathroom.EnterBathroom`.
- Lab2Task.Bathroom.EnterBathroom: as `Lab1Task.Bathroom.EnterBathroom`.
- Lab4Server.Bathroom.EnterBathroom: requires, when the server runs, that the caller may enter at once; otherwise as `Lab1Task.Bathroom.EnterBathroom`.
- Lab4Server.Bathroom.HandleCommand: a `CMD_ENTER` requires what `Lab4Server.Bathroom.EnterBathroom` requires.
- Sockets: `recv`, `send`, `accept`, `acceptConnections`, the short-packet check and connection teardown in `handleClient`, and the client program. `HandleCommand` models one received well-formed command.
- `RESP_WAIT` is declared in lab4/code/server.c but never sent; it is not modelled.
- A wire gender other than 1 or 2: the server treats it as female in its counters but compares it as its own code in `canEnter`. The model's sex has two values.
- Unsigned and `int` overflow of the counters: counters are unbounded. An unmatched `CMD_EXIT` making `occupied_cabins` negative is modelled (`UnmatchedExitBreaksInvariant`).
- Lab2Info.Bathroom.constructor: lab2/info/code/task.c points `b` at a record on the stack of `initBathroom`, which is dead after it returns, and its `main` does nothing. The model gives the record its intended initial value.
- Lab1Task.Leave: requires an occupied cabin; `leaveBathroom` is only called by a student after its own `enterBathroom`, so the unsigned underflow of `cabins_used` cannot arise and is not modelled.
- Lab1Bathroom.Leave: requires an occupied cabin, for the same reason.
- Lab2Info.Leave: requires an occupied cabin, for the same reason.
- Lab2Task.Leave: requires an occupied cabin, for the same reason.
- Abandonment: the model allows it whenever a caller of that sex waits, which over-approximates the stopped server. Lab4's lockout-freedom lemmas assume no abandonment (`ServerRunning`).
