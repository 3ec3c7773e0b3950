# Dependency runs of cardboard, modelled in Dafny

`run/deps.go` is the dependency engine of the cardboard build tool. A
dependency (`Dep`) has an identifier and a body. A dependency run (`depRun`)
remembers, per identifier, a run-once wrapper (`depOnce`). The intended
behaviour is that however often a dependency is requested, its body executes
at most once per run, and every request reports the outcome of that one
execution. The code delivers this when the first requests for an identifier
do not overlap. Two concurrent first requests can race (see Findings). `Serial`
requests a list of dependencies in order and stops at the first failure.
`Parallel` requests all of them in goroutines and joins every failure.
`Reset` forgets everything. The adapters `Fn`, `Fn1` … `Fn6` turn a function
and up to six bound arguments into a dependency whose identifier (`funcID`) is
the function's name followed by the renderings of the arguments.

The model is functional. A table is an immutable `DepRun`: the map from
identifier to wrapper, plus the log of identifiers whose bodies executed, in
order. Each operation returns the new table with the Go `error` it returns.
The log makes "at most once" observable. The invariant `Store.Valid` states
it: the log has no repetitions, and it names exactly the finished wrappers.
A dependency body is modelled by the outcome it produces.

`Parallel` takes one more argument, a schedule. The schedule is the order in
which its goroutines reach their wrappers, a permutation of the positions.
The model proves that four things do not depend on the schedule: the wrappers (`ran`), whether an error is returned, the multiset of joined failures, and which bodies execute (the log holds the same identifiers, each once). The order of the log does depend on it, and so do the order of the joined failures and the error's `Error()` text.

Modules, following the program's structure:

- `Errors`: Go error values as the engine builds and inspects them. These are
  the `running <id>: %w` wrapper, `errors.Join`, `errors.Is` and the
  `Error()` text.
- `Strings`: `strings.HasSuffix`, `TrimSuffix` and `Join`.
- `Identity`: `funcID`.
- `Store`: `dep`, `depOnce` (`newOnce`, `ID`, `Run`) and `depRun`
  (`NewDependencyRun`, `Reset`, `get`).
- `Orchestrator`: `Serial` and `Parallel`.
- `Calls`: sequences of calls on one shared run, and the promises that hold
  across them.
- `Adapters`: `Fn` … `Fn6`.
- `Race`: the interleaving that `get`'s read lock permits (see Findings).

## Model

| member | source | states |
|---|---|---|
| Errors.Join | run/deps.go:71-72 | joining no errors gives nil; otherwise the joined error unwraps to exactly the given errors, and `errors.Is` finds each of them in it |
| Errors.Unwrap | run/deps.go:66 | every error an error wraps is strictly smaller than it, so walking the error tree terminates |
| Errors.Is | run/deps.go:66-72 | `errors.Is` only matches the error itself or an error it wraps, directly or further down; body errors are matched by identity, not by text |
| Errors.Message | run/deps.go:66-80 | the `Error()` text: a `running <id>` wrapper ends with its cause's text, a join of one error is that error's text, and a longer join starts with the first error's text and a newline |
| Errors.JoinedIs | run/deps.go:72 | `errors.Is` sees through `errors.Join`: whatever a joined error matches, the join matches |
| Errors.RunningIs | run/deps.go:80 | `errors.Is` sees through the `%w` of the `running <id>` wrapper |
| Strings.TrimSuffix | run/deps.go:282 | with the suffix present, trimming and re-appending it restores the string; without it, the string is unchanged |
| Strings.TrimSuffixAppended | run/deps.go:282 | trimming undoes appending the suffix, removing one copy only |
| Strings.Join | run/deps.go:288 | one part is itself; the length is the parts plus one separator between each two neighbours; the first part and a separator open the result |
| Strings.JoinInjective | run/deps.go:288 | on non-empty lists whose parts avoid the separator's first character, equal joins mean equal lists |
| Identity.Name | run/deps.go:281-282 | a runtime name ending in `-fm` loses exactly that suffix; any other name is kept |
| Identity.FuncID | run/deps.go:279-291 | the identity is the name, then the renderings joined by `, ` in parentheses (`name()` without arguments), and its length follows from its parts |
| Identity.FuncIDInjective | run/deps.go:279-291 | for one function name, separable renderings can be read back from the identity: equal identities mean equal argument lists |
| Identity.MethodValueSharesID | run/deps.go:282 | a method value (`-fm`) and the plain function of the same name have the same identity; only one suffix is removed |
| Identity.NonSeparableCollide | run/deps.go:283-290 | renderings that contain `, ` or are empty can collide: one argument rendered as a, b (a type whose `GoString` method prints that) looks like two, one empty argument looks like none |
| Store.NewDependencyRun | run/deps.go:33-38 | a new run satisfies the invariant and knows no identifier |
| Store.Reset | run/deps.go:46-50 | after a reset the run satisfies the invariant, and no identifier is registered or logged |
| Store.Get | run/deps.go:86-95 | lookup or insert: a known identifier returns its wrapper and leaves the table as it was; an unknown one is registered with a fresh wrapper for this dependency; other entries are untouched; the invariant is kept |
| Store.Run | run/deps.go:311-316 | the first call executes the body and caches its outcome; a later call executes nothing and returns the cached outcome |
| Store.RunAtMostOnce | run/deps.go:311-316 | over any number of calls, only the first can execute the body, and every call returns the first call's outcome, failures included |
| Store.RunEntry | run/deps.go:311-316 | running a registered wrapper logs its identifier only if it was pending; on a valid table it returns the registered body's outcome and keeps the invariant |
| Store.Request | run/deps.go:78-79 | `get` then `Run`: the outcome is that of the body registered first under the identifier, which may be another dependency with the same identifier; the body is logged only if it had not yet finished |
| Store.NewlyExecuted | run/deps.go:311-316 | an operation that finishes a set of wrappers and leaves the others alone executes exactly the uncached ones among them, each once |
| Orchestrator.FirstListedAt | run/deps.go:89-92 | the first position listing an identifier determines the dependency registered for it |
| Orchestrator.OwnerStable | run/deps.go:86-95 | a request changes no position's registered dependency, and the requested position gets the one it predicted |
| Orchestrator.FirstFailure | run/deps.go:77-81 | the first failing position: every earlier position succeeds, and the position itself fails |
| Orchestrator.FirstFailureStable | run/deps.go:77-81 | tables that resolve every position alike agree on the first failure |
| Orchestrator.SerialFrom | run/deps.go:77-83 | the loop from a position on reports nil exactly when every later position succeeds, and otherwise the wrapped first failure; it finishes exactly the positions up to that failure |
| Orchestrator.SerialFromRequest | run/deps.go:78-79 | one loop step reports the position's resolved outcome and finishes its wrapper with that outcome |
| Orchestrator.SerialFromFails | run/deps.go:79-81 | a failing step ends the loop with `running <id>: <err>` |
| Orchestrator.SerialFromCons | run/deps.go:77-82 | a successful step followed by the rest of the loop is the loop from that step |
| Orchestrator.Serial | run/deps.go:76-84 | nil exactly when every listed position succeeds; otherwise `running <id>: <err>` for the first failing position; only identifiers listed up to it are registered; every reached position ends finished with its registered body's outcome; the invariant is kept |
| Orchestrator.SerialExecutes | run/deps.go:76-84 | the bodies `Serial` executes are exactly the uncached identifiers up to the first failure, each once |
| Orchestrator.ResolveFrom | run/deps.go:60-61 | the main loop of `Parallel` registers every listed identifier with its first-listed dependency, executing nothing |
| Orchestrator.Wrapped | run/deps.go:64-66 | an outcome contributes at most one error, and none exactly when it is nil |
| Orchestrator.ScheduleCovers | run/deps.go:59-71 | a schedule reaches every position exactly once |
| Orchestrator.FailuresAppend | run/deps.go:65-67 | goroutines running in two batches collect the first batch's failures, then the second's |
| Orchestrator.FailuresPermutation | run/deps.go:62-71 | running the same positions in another order collects the same failures, as a multiset |
| Orchestrator.ExpectedEmpty | run/deps.go:64-72 | no failure is collected exactly when every position succeeds |
| Orchestrator.ExpectedHas | run/deps.go:64-66 | each failing position contributes its wrapped failure |
| Orchestrator.ExpectedFrom | run/deps.go:64-66 | every collected failure is the wrapped failure of a failing position |
| Orchestrator.FailuresInOrder | run/deps.go:62-71 | running the positions in list order collects the expected failures in list order |
| Orchestrator.RunAll | run/deps.go:62-71 | running the goroutines in a schedule finishes each scheduled wrapper with its body's outcome, logs only the pending ones, and collects one wrapped failure per failing position, in schedule order |
| Orchestrator.RunAllSnoc | run/deps.go:62-69 | one more goroutine extends the run of the earlier ones |
| Orchestrator.Parallel | run/deps.go:53-73 | every listed position runs; each ends finished with its registered body's outcome; unlisted wrappers are untouched; nil exactly when all succeed; otherwise one joined error holding one `running <id>: <err>` per failing position, duplicates included, in some order; the invariant is kept |
| Orchestrator.ParallelExecutes | run/deps.go:53-73 | the bodies `Parallel` executes are exactly the uncached listed identifiers, each once |
| Orchestrator.ParallelCorrect | run/deps.go:53-73 | resolving every position and then running the goroutines in the schedule gives the table and failures `Parallel` promises |
| Orchestrator.ParallelEntries | run/deps.go:60-69 | every listed wrapper ends with its registered dependency and that body's outcome |
| Orchestrator.ParallelUntouched | run/deps.go:60-69 | wrappers the list does not mention are left alone |
| Orchestrator.ParallelFailures | run/deps.go:64-72 | the collected failures are the expected ones, as a multiset, and there are none exactly when all positions succeed |
| Calls.Reported | run/deps.go:79-80 | the wrapped failure is nil exactly when the outcome is, and a failure is the very error `Parallel` wraps for the same outcome (`Orchestrator.Wrapped`) |
| Calls.SerialKeepsCached | run/deps.go:86-95 | `Serial` never replaces a finished wrapper |
| Calls.ParallelKeepsCached | run/deps.go:86-95 | `Parallel` never replaces a finished wrapper |
| Calls.Perform | run/deps.go:46-84 | any call keeps the invariant; a call other than `Reset` only extends the log and keeps every finished wrapper; `Reset` empties the table and the log |
| Calls.Apply | run/deps.go:46-84 | along calls without a reset, the log only grows and finished wrappers stay; the invariant holds throughout |
| Calls.ApplyAppend | run/deps.go:46-84 | making two batches of calls one after the other is making them all |
| Calls.AtMostOnceAcrossCalls | run/deps.go:86-95 | `get` together with `depOnce.Run` (lines 311-316): across any calls without a reset, no body executes twice, and no body whose outcome was cached executes again |
| Calls.CachedOutcomeReused | run/deps.go:86-95 | `get` together with `depOnce.Run` (lines 311-316): after any calls without a reset, requesting a dependency cached before them executes nothing and reports the cached outcome, failure included |
| Calls.RepeatOwner | run/deps.go:89-92 | every copy of an unregistered repeated dependency resolves to that dependency |
| Calls.SerialDuplicatesRunOnce | run/deps.go:76-84 | a dependency not yet registered and listed `n` times in `Serial` executes once and reports its outcome once |
| Calls.SerialRepeatOutcome | run/deps.go:76-84 | `Serial` over copies of one dependency reports that dependency's wrapped outcome |
| Calls.ExpectedRepeat | run/deps.go:64-66 | a failing dependency repeated `n` times is expected to fail `n` times |
| Calls.ParallelDuplicates | run/deps.go:53-73 | a dependency not yet registered and listed `n` times in `Parallel` executes once; it reports nil if it succeeds, otherwise `n` copies of its wrapped failure joined |
| Calls.ParallelDuplicatesRunOnce | run/deps.go:53-73 | a repeated dependency not yet registered executes once in `Parallel` |
| Calls.ParallelDuplicatesFail | run/deps.go:64-72 | a repeated failing dependency not yet registered fails once per position in `Parallel` |
| Calls.ParallelDuplicatesSucceed | run/deps.go:64-72 | a repeated succeeding dependency not yet registered makes `Parallel` report nil |
| Calls.EmptyLists | run/deps.go:59-83 | `Serial` and `Parallel` over no dependencies report nil and leave the table unchanged |
| Calls.ResetIsolation | run/deps.go:46-50 | after `Reset`, a dependency executes again, and the table then holds only its finished wrapper |
| Calls.FirstRequestTable | run/deps.go:86-95 | on a new run, requesting a dependency leaves exactly its finished wrapper |
| Calls.ResetForgetsHistory | run/deps.go:46-50 | the calls after a `Reset` behave as on a new run, whatever came before |
| Calls.ParallelScheduleIndependent | run/deps.go:53-73 | the wrappers (`ran`), the nil-ness, the multiset of joined failures and the multiset of executed identifiers do not depend on the order the goroutines run; the log's order does |
| Calls.SameLogContents | run/deps.go:53-73 | two schedules' logs hold the same executions, each identifier equally often |
| Calls.SameNewRuns | run/deps.go:53-73 | two logs extending one table whose new parts name the same identifiers, each once, are permutations of each other |
| Calls.ParallelListsFailure | run/deps.go:64-72 | every failing position's wrapped failure is among the joined errors |
| Calls.ParallelListsOnlyFailures | run/deps.go:64-72 | every joined error is the wrapped failure of a failing position, so a succeeding dependency contributes nothing |
| Calls.ParallelRevealsFailures | run/deps.go:64-72 | `errors.Is` finds every failing position's failure in the error `Parallel` returns: both the body's own error, which a caller holds, and its `running <id>` wrapper |
| Calls.SerialRevealsFailure | run/deps.go:79-81 | when some position fails, `errors.Is` finds the first failing body's own error in what `Serial` returns, and the text is `running <id>: ` followed by that error's text |
| Adapters.Fn | run/deps.go:114-276 | the identity is the function's name and the argument renderings; shapes without an `error` result always succeed; the others report exactly the function's error |
| Adapters.DistinctArgumentsDistinctIDs | run/deps.go:279-291 | one function bound to different separable arguments gives dependencies with different identities |
| Calls.FirstRegisteredWins | run/deps.go:86-95 | of two different dependencies sharing an identifier not yet registered, `Serial` registers and executes only the first listed and reports its outcome; the second body never runs |
| Adapters.SharedIdentityFirstWins | run/deps.go:279-291 | two functions the runtime names alike (two method values of one method, or one function adapted twice), adapted with the same arguments and not yet registered: only the first executes, its wrapper is registered and its outcome reported, whatever the second returns |
| Race.LookupAsWritten | run/deps.go:87-89 | the lookup under the read lock finds the registered wrapper exactly when there is one |
| Race.InsertAsWritten | run/deps.go:90-93 | a caller that saw nothing stores a fresh wrapper, replacing whatever is there, and keeps it |
| Race.InterleavedRequests | run/deps.go:86-95 | two interleaved requests leave a wrapper under the identifier and every other entry untouched |
| Race.InterleavedRequestsRunTwice | run/deps.go:86-95 | with both lookups before both insertions, the body executes twice and the at-most-once invariant breaks |
| Race.SequentialRequestsRunOnce | run/deps.go:86-95 | with `get` atomic, the second caller receives the first caller's wrapper and the body executes once |

## Left out

- Goroutines, `sync.WaitGroup` and the mutexes are left out. `Parallel` is modelled as every `get` in list order, followed by the goroutines' `Run` calls in a schedule given as a parameter. Any interleaving of the goroutines comes down to such a schedule, because wrappers are only created in the main loop.
- `sync.Once` is left out. The wrapper's `Pending`/`Done` status stands for it. A goroutine that blocks inside `Once.Do` until the first caller finishes is modelled as running after it.
- `get` is modelled atomic. The race its read lock permits is kept apart in the `Race` module.
- Dependency bodies are modelled by the outcome they produce, so they are deterministic, terminate and have no side effects. A body that requests further dependencies on the same run is not modelled.
- Panicking bodies are not modelled. In the source, `Once.Do` (run/deps.go:312-313) counts a body that panics as finished and leaves `o.err` nil. If a caller recovers the panic, every later request for that identifier reports success. Otherwise the panic ends the process: `Parallel` runs the body in a goroutine without `recover` (run/deps.go:62-69), and in `Serial` it propagates to the caller (run/deps.go:79). The model has neither path.
- The `context.Context` is left out. It is only passed through to bodies, so a context-taking shape and the shape without the context become the same adapter.
- The runtime name of a function, from `reflect` and `runtime.FuncForPC`, is a parameter.
- The `%#v` rendering of an argument is left out: arguments are given as their renderings.
- The generic type parameters of `Fn1` … `Fn6` are left out: one adapter over a list of at most six renderings stands for all seven.
- The package-level run `dr` with `SerialDeps`/`ParallelDeps` (run/deps.go:13-23) is left out. These only forward to a shared `depRun`, which the `Calls` module models directly.
- Adapters.Fn: a function called by an adapter is modelled by its result; what a shape without an `error` result does besides returning is not modelled.
- Only the errors the engine builds are modelled. Any other error is an opaque `Failure`, and its `Error()` text is a parameter.
- The errors the engine builds are compared by value. Go's `errors.Is` compares the `running <id>` wrappers and joins by pointer, and each call builds fresh ones. Two such errors with the same contents are therefore equal in the model but distinct in Go. Body errors carry an explicit identity, so they are compared as Go compares them.
- run/manager.go is not part of this model. Neither are sh/, project.go, or the type-registration test in run/types_test.go.

## Findings

| source | as written | input that shows it | evidently intended | confidence | as-written member | corrected member |
|---|---|---|---|---|---|---|
| run/deps.go:86-95 | `get` holds only the read lock while it inserts a new wrapper, so two callers can both miss the identifier, each insert its own wrapper, and each run it; Go's map may also detect the concurrent writes and abort the program | two goroutines request the same unregistered dependency, e.g. nested `SerialDeps` calls from inside two bodies of one `Parallel`; both look up before either inserts | `get` takes the write lock, so the second caller receives the first caller's wrapper and the body executes once | medium, not executed | Race.InterleavedRequestsRunTwice | Race.SequentialRequestsRunOnce |
