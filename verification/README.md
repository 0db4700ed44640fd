# brute.c — the candidate generator and its dispatchers, in Dafny

`brute.c` is a brute-force password cracker. Given a hash, an alphabet and a maximum password
length, it enumerates candidate passwords and hashes each one with `crypt_r` until one of them
reproduces the hash. This project models its core and proves properties of that model:

- **The candidate generator.** A task is a password buffer (`password_t`, 16 characters) plus
  a half-open range `[from, to)`. The generator writes every combination of alphabet symbols
  into the range and hands each filled buffer to a handler. It stops as soon as the shared
  `found` flag is set. There are two strategies:
  - `rec`/`brute_rec` is a depth-first recursive fill (module `Generator`).
  - `brute_iter` is a mixed-radix odometer over an index array `a[]` (module `Odometer`).

  Both are checked against one specification. `Tuples` lists the digit vectors in
  lexicographic order (module `Enumeration`), `Candidates` renders them into buffers, and
  `Drive` hands the buffers over until `found`. The headline theorem is the postcondition of
  `Odometer.BruteIter`: the odometer makes exactly the handler calls of the recursion, in the
  same order, stops at the same call and returns the same value.
- **The `check` handler** (module `Checker`). The hash comparison is a parameter
  `verify: string -> bool`. It says whether hashing the string with the configured hash as
  salt gives back that hash.
- **The ring-buffer task queue** (module `TaskQueue`). It has `SIZE_Q = 7` slots, `head` and
  `tail` cursors, and the two semaphore counts `empty` and `full` as plain numbers.
- **The dispatchers.**
  - `brute_all` and `run_single` are in module `Search`.
  - `task_push`, `worker` and `run_multi` are in module `Multi`. They run as one sequential
    schedule: `run_multi` starts exactly one worker, because `ncpu` is hard-coded to 1.
  - In that schedule the worker runs only when it must. When a push finds the queue full, the
    worker first takes one task off and processes it completely. After publishing, the worker
    drains the queue while the dispatcher waits for `tip` to reach 0.

A handler is a state transformer plus the reading of `found` from the state. The two strategies
differ here:
- `rec` ignores the handler's return value and returns `result.found`.
- `brute_iter` breaks on the return value.

Both handlers of `brute.c` return `result.found`, so the two readings coincide.

What a run assumes of its configuration (`Search.ValidConfig`):
- the alphabet is non-empty;
- the alphabet has no NUL, which holds because it is a C string;
- `password_length <= MAX_LENGTH`.

Without the first condition, `brute_iter` reads past the alphabet. Without the last, the buffer
overflows.

## Model

| member | source | states |
|---|---|---|
| Enumeration.TuplesCount | brute.c:146-160 | there are size(A)^n digit vectors of length n |
| Enumeration.TuplesSorted | brute.c:153-157 | the enumeration is strictly increasing in lexicographic order, first position most significant (the last position varies fastest) |
| Enumeration.TuplesDistinct | brute.c:153-157 | no digit vector is enumerated twice |
| Enumeration.TuplesComplete | brute.c:153-157 | every digit vector over `[0, size(A))` is enumerated |
| Enumeration.TuplesOdometer | brute.c:173-187 | read as an odometer, the enumeration starts at all zeros, each vector is one carry step after the previous one, and the carry runs off the left end only after the last vector |
| Enumeration.IncCarry | brute.c:180-186 | resetting the trailing digits that hold the last symbol and advancing the next digit is one odometer step |
| Enumeration.IncOverflow | brute.c:180-185 | when every digit holds the last symbol, the carry runs past `from` |
| Enumeration.TuplesIncNone | brute.c:184-186 | the odometer step carries out of the k-th vector exactly when it is the last one; otherwise it gives the (k+1)-th |
| Generator.Rec | brute.c:146-160 | `rec` leaves the buffer before `pos` and from `to` on unchanged; it returns true only with `found` set, and returns false after a call only with `found` clear |
| Generator.RecLoop | brute.c:153-158 | the symbol loop of `rec` has the same frame and `found` guarantees |
| Generator.DriveShortCircuit | brute.c:149-157 | the buffers handed over form a prefix of the candidates, and the state is the one the non-stopping fold over them gives. No earlier call left `found` set. The run returns `found`, and it reaches every candidate unless `found` was set |
| Generator.DriveFound | brute.c:139-143 | with a handler that sets `found` exactly on acceptance, the run ends with `found` iff it started so or some candidate is accepted |
| Generator.DrivePreserves | brute.c:153-157 | a property every handler call keeps holds after the run |
| Generator.DriveLog | brute.c:126-131 | a handler that appends one entry per call ends with exactly the entries of the buffers handed over |
| Generator.CandidatesCount | brute.c:146-160 | a range `[from, to)` has size(A)^(to-from) candidates |
| Generator.CandidatesShape | brute.c:154 | every candidate keeps the buffer before `from` and from `to` on, and holds alphabet symbols inside the range |
| Generator.EmptyRangeSingleCandidate | brute.c:148-151 | an empty range has exactly one candidate, the buffer itself |
| Generator.RecMeetsSpec | brute.c:146-165 | `rec` from `pos` makes exactly the calls of `Drive` over the candidates of `[pos, to)`, ending in the same state with the same return value |
| Generator.RecLoopMeetsSpec | brute.c:153-158 | the symbol loop from symbol i makes exactly the calls of `Drive` over the candidates whose digit at `pos` is at least i |
| Generator.RecExhaustive | brute.c:146-160 | when the handler never reports found, `brute_rec` calls it on every candidate in order, size(A)^(to-from) times, and returns false |
| Generator.RecOrder | brute.c:153-157 | the k-th call of `brute_rec` carries the k-th vector of the strictly increasing enumeration |
| Generator.CandidatesDistinct | brute.c:153-157 | over an alphabet without repeated symbols, no buffer is handed over twice |
| Generator.CandidatesComplete | brute.c:153-157 | every assignment of alphabet symbols to the range is a candidate |
| Odometer.Carry | brute.c:180-183 | the carry loop resets exactly the trailing digits that hold the last symbol, and stops at the first other digit or one left of `from` |
| Odometer.CarryIsInc | brute.c:180-186 | the carry loop followed by the advance is one odometer step; running past `from` means the last vector was reached |
| Odometer.OdometerStep | brute.c:180-186 | carry plus advance moves the digits one odometer step, keeping buffer and digits in step; it reports exhaustion exactly when the step carries out |
| Odometer.Reset | brute.c:168-176 | starting from any contents of the uninitialised digit array, the reset sets every digit of the range to 0 and every position of the range to the first symbol |
| Odometer.Next | brute.c:180-186 | from the k-th candidate the odometer moves to the (k+1)-th. After the last, it reports exhaustion and leaves the range showing the first symbol |
| Odometer.IterLoop | brute.c:177-187 | the odometer loop makes exactly the calls of `Drive` over the candidates. After a match the buffer is the last candidate; after exhaustion the range is reset to the first symbol |
| Odometer.BruteIter | brute.c:167-191 | `brute_iter` makes the same calls, in the same order, with the same stopping point, final state and return value, as `brute_rec` on the buffer terminated at `password_length` |
| TaskQueue.Advance | brute.c:107-108 | moving a cursor past the last slot wraps it to slot 0 |
| TaskQueue.CursorsModulo | brute.c:107-120 | a push moves the tail, and a pop the head, one slot on modulo SIZE_Q |
| TaskQueue.WrapIsModulo | brute.c:119-120 | the wrapped position is the position modulo SIZE_Q |
| TaskQueue.Init | brute.c:79-98 | a fresh queue is valid, has SIZE_Q free slots and holds nothing |
| TaskQueue.Push | brute.c:114-124 | a push blocks exactly when the queue is full. Otherwise the queue stays valid, gains one occupied slot and appends the task to its contents |
| TaskQueue.Pop | brute.c:100-112 | a pop blocks exactly when the queue is empty. Otherwise it returns the oldest task, and the queue stays valid with that task removed |
| TaskQueue.PushContents | brute.c:118-120 | writing the tail slot of a queue that is not full appends to its contents |
| TaskQueue.PopContents | brute.c:105-108 | advancing the head of a non-empty queue drops its oldest task |
| TaskQueue.ReplayFifo | brute.c:100-124 | over any sequence of operations, the tasks popped followed by those still queued are the tasks queued at the start followed by those pushed: every task is popped at most once, in push order |
| TaskQueue.ReplayDefined | brute.c:100-124 | a sequence of operations never blocks exactly when the occupied count stays within `[0, SIZE_Q]` after every prefix; the final `full` is that count |
| Checker.CStr | brute.c:141 | the C string of a buffer is its longest NUL-free prefix, ended by a NUL or by the end of the array |
| Checker.CheckStep | brute.c:135-144 | `check` sets `found` exactly when it was set or the candidate is accepted. It never clears it, copies the candidate on a match and changes nothing otherwise |
| Checker.HoldsCStr | brute.c:141 | over a NUL-free alphabet the candidate's C string, and its `strncpy` copy, is the word the buffer holds |
| Checker.CheckRun | brute.c:135-144 | `check` over buffers holding words of one length ends with `found` iff it started so or one of the words is accepted; a reported password stays an accepted word |
| Checker.CandidateWords | brute.c:153-157 | accepting a candidate of `[from, to)` is accepting the prefix extended by some word of `to - from` symbols |
| Checker.CheckLevel | brute.c:135-144 | `check` over the candidates of a range ends with `found` iff it started so or some extension of the prefix is accepted, and keeps the result sound |
| Search.BruteAllSpec | brute.c:228-242 | `brute_all` hands the candidates of the task's range, over the buffer as the strategy starts it, to the handler until `found` |
| Search.BruteAllImpl | brute.c:228-242 | running the configured strategy as written, recursion or odometer, gives the run `BruteAll` describes |
| Search.StrategiesAgree | brute.c:172 | on a buffer already NUL at `password_length`, the terminator `brute_iter` writes changes nothing, and both modes make the same calls |
| Search.FreshTask | brute.c:269-273 | the task built for length `to` covers `[0, to)` over an all-NUL password |
| Search.FreshTaskStart | brute.c:269-273 | that task is runnable by either strategy, starts from the all-NUL buffer and holds the empty word |
| Search.SingleLevel | brute.c:269-274 | one iteration of `run_single` sets `found` iff it was set or some word of exactly length `to` is accepted, and keeps the result sound |
| Search.SingleFromSound | brute.c:268-275 | the loop keeps the result sound: a reported password is an accepted word over the alphabet of length at most `password_length` |
| Search.SingleFromSpec | brute.c:268-275 | the loop from `to` finds exactly the accepted words of every length from `to` to `password_length` inclusive |
| Search.SingleCorrect | brute.c:264-276 | `run_single` reports found iff some word of length 0 to `password_length` is accepted, and what it reports is such a word |
| Multi.ExtendRunnable | brute.c:252-253 | the range `[to, to + END)` the worker derives from a published prefix task is runnable by the configured strategy and ends within `password_length` |
| Multi.WorkerStep | brute.c:250-258 | a worker iteration processes the oldest queued task and decrements `tip`; it changes neither the configuration nor what was published |
| Multi.PushStep | brute.c:126-132 | `task_push` publishes the prefix task. On a queue with room it increments `tip`. On a full queue the worker step it waits for first processes one task |
| Multi.Drain | brute.c:300-303 | the dispatcher's wait ends with `tip` 0 and the queue empty |
| Multi.InitialGood | brute.c:322-332 | the run starts in a good state: nothing published, processed or found, `tip` 0, and an empty queue with every slot free |
| Multi.WorkerGood | brute.c:244-260 | a worker step keeps only publishable tasks published and the result sound; it never clears `found`, and while nothing is found each processed task has no accepted extension. Starting from nothing found, the step sets `found` exactly when the popped task has an accepted extension |
| Multi.PushGood | brute.c:126-132 | a `task_push` of a prefix keeps that invariant and never clears `found` |
| Multi.ProducerLevel | brute.c:289-298 | one iteration of the publishing loop keeps the invariant and never clears `found`. Unless `found` is set, it publishes every prefix of length `to` in generator order |
| Multi.MultiFromGood | brute.c:289-298 | the publishing loop keeps the invariant and never clears `found` |
| Multi.MultiFromSpec | brute.c:289-298 | unless `found` is set, the publishing loop from `to` publishes every prefix of every length from `to` to `password_length - END`, shortest first |
| Multi.DrainSpec | brute.c:300-303 | the wait keeps the invariant; at its end the queue is empty and every published task was processed exactly once, in publishing order |
| Multi.PrefixesContain | brute.c:289-297 | every prefix of a length in `[lo, password_length - END]` is among the prefixes published from `lo` on |
| Multi.PrefixesRefute | brute.c:252-254 | a word of END to `password_length` symbols extends a published prefix by END symbols, so once every published prefix is refuted the word is rejected |
| Multi.RunMultiSpec | brute.c:279-304 | the whole run keeps the invariant and drains the queue. Unless `found` is set, it publishes exactly the prefixes of every length 0 to `password_length - END`; below END it publishes nothing |
| Multi.MultiCorrect | brute.c:279-304 | `run_multi` reports found iff some word of END to `password_length` symbols is accepted, and what it reports is such a word |
| Multi.MultiRanges | brute.c:289-297 | every published task is `[0, to)` with `to + END <= password_length`, and the range the worker derives stays within the password. At the end `tip` is 0. `Multi.RunMultiSpec` states the drained queue and the published tasks |
| Multi.LevelCount | brute.c:289-297 | the prefixes of length n are size(A)^n tasks |
| Multi.PrefixesCount | brute.c:289-297 | the run publishes size(A)^n prefixes of each length n from `to` to `password_length - END`, summed over those lengths |
| Multi.PrefixesCountExample | brute.c:289-297 | with three symbols and length 4, 13 prefixes are published (lengths 0, 1 and 2) |
| Multi.ModesAgree | brute.c:361-372 | without an accepted word shorter than END, both thread modes report the same outcome |
| Multi.ShortWordsSingleOnly | brute.c:361-372 | words shorter than END are tried only by `run_single`: accepting only the empty password, single mode finds it and multi mode does not |

## Left out

- Threads, mutexes, semaphores and the condition variable are left out (brute.c:100-124 locking, brute.c:244-304). The model is one sequential schedule with a single worker, as `ncpu` is fixed at 1. A push or pop that would block returns `None` instead of waiting. The unsynchronised reads of `found` and the `tip` updates under different mutexes have no sequential counterpart.
- `crypt_r` and `struct crypt_data` are replaced by the parameter `verify`, since hashing is a foreign call.
- `parse_params`, `getopt` and `atoi` are not modelled; the configuration is a value of the `Config` datatype. `main`'s printing, its initialisation-failure paths and the `queue_init` failure branch (brute.c:86-97) are left out too; the model has only the successful initialisation.
- The `printf` in `worker` is left out.
- Multi.WorkerStep: a popped task whose extended range the strategy could not run leaves the result unchanged. `brute.c` would run it out of bounds. `Multi.MultiRanges` proves no such task is ever published.
- Search.BruteAll: at the search level, both brute modes are the recursive function on the buffer as the configured strategy starts it. `Odometer.BruteIter` proves the odometer makes the same calls, and `Search.BruteAllImpl` runs the two real strategies.
- Checker.CheckStep: `strncpy` is modelled as the C string of the buffer's first MAX_LENGTH characters. The NUL at the end of `result.password` that the zero-initialised `result_t` supplies is not modelled separately.
- Multi-threaded mode below END: with `password_length < END` the publishing loop runs zero times and the run reports not found. The model follows the code here; it does not fail fast on a configuration error.
- Multi-threaded prefix count: the run publishes prefixes of every length 0 to `password_length - END`, not only those of length `password_length - END`. With three symbols and length 4 that is 13 prefixes and 9 + 27 + 81 candidates. The model follows the code (`Multi.PrefixesCountExample`).
- Multi-threaded short words: passwords shorter than END are never tried, because every worker range is `[to, to + END)`. This is behaviour of the code, not modelled as an error (`Multi.ShortWordsSingleOnly`).
