# keygroup in Dafny

A model of `KeyGroup` from keygroup.go, a Go wrapper around `sync.WaitGroup`
that runs one goroutine per string key and reconciles the running set with a
desired list of keys. The group keeps the active key set `keys`, a table
`cancel` from key to the cancel function of that key's context (with the
reserved root entry `"main"`, whose context every per-key context derives
from), and the wait-group counter. `Update(ks)` starts the keys of `ks` that
are not active, stops the active keys that are not in `ks` (cancel, then
delete the entry) and makes the set of `ks` the active set; `Add` and
`StopKeys` are built on it and on `stop`; `Cancel` calls the root entry's
cancel function; a goroutine, when its function returns, lowers the counter
and removes its key from the active set.

Contexts are named by handles: the root context is handle 0 and the i-th
goroutine launched gets handle i. A handle is cancelled when its own cancel
function has been called or the root's has.

- `seqs.dfy` (`Seqs`): list elements, lists without repetition, and
  `List`, the enumeration of a set that `strset.List()` returns.
- `keygroup_state.dfy` (`KeyGroupState`): the group's state as a value, one
  function per step (`StartAll` for `run`, `StopAll` for `stop`, `Update`,
  `Add`, `StopKeys`, `CancelAll`, `Complete`), the invariant `Valid`, and the
  lemmas that say what each step does.
- `keygroup.dfy` (`KeyGroups`): the class `KeyGroup` with the source's fields
  and methods; `Run` and `Stop` are the source's loops, and every method's
  new state is a step function applied to the old state: the corresponding
  one of `KeyGroupState`, and for `Complete` the guarded return
  `Ownership.CompleteGuarded`.
- `ownership.dfy` (`Ownership`): which goroutine a key's entry belongs to,
  the finding below, and the corrected completion that the class uses.
- `example.dfy` (`Example`): the scripted run of keygroup_test.go, step by
  step at the level of sets.

One might expect the table's keys to be the active set plus `"main"` once
every goroutine is idle. The code does not keep that: a
goroutine's return removes its key from the active set but leaves its table
entry. The model follows the code (`KeyGroupState.CompleteEffects`,
`KeyGroups.KeyGroup.Complete`), and the invariant it keeps instead is that
every active key has an entry and a running goroutine with that entry's
context.

## Model

| member | source | states |
|---|---|---|
| `KeyGroups.KeyGroup.constructor` | keygroup.go:26-28 | `NewKeyGroup`: no active key, a table with only the root entry, a zero counter, and a root context that is not done |
| `KeyGroups.KeyGroup.WithContext` | keygroup.go:32-43 | `NewKeyGroupWithContext`: the same, with a root context that is done exactly when the parent already is |
| `KeyGroupState.InitValid` | keygroup.go:32-43 | the initial state keeps the invariant, has no key and no goroutine, a table holding only `"main"`, and a root cancelled exactly when the parent is |
| `Ownership.InitOwned` | keygroup.go:32-43 | the initial state satisfies entry ownership |
| `KeyGroups.KeyGroup.Cancel` | keygroup.go:46-48 | `Cancel` marks the root done, after which every running goroutine's context is done; keys, table, cancelled handles, counter and goroutines are unchanged |
| `KeyGroupState.CancelAllEffects` | keygroup.go:46-48 | after `Cancel` every goroutine's handle and every table handle is cancelled, and only the root flag changed |
| `Ownership.CancelAllOwned` | keygroup.go:46-48 | after `Cancel` no goroutine has a live context, so ownership holds |
| `KeyGroups.KeyGroup.Run` | keygroup.go:50-62 | the loop of `run`, proved by its invariant to end in `StartAll` of the old state and the list |
| `KeyGroupState.StartAll` | keygroup.go:50-62 | `run(l)` leaves the active set and the cancelled handles alone, adds `l` to the start log, raises the counter and the handle counter by the length of `l`, and never loses an entry |
| `KeyGroupState.StartAllStep` | keygroup.go:51-61 | one more turn of the loop of `run` is one more `StartKey` |
| `KeyGroupState.StartAllEntries` | keygroup.go:51-53 | after `run(l)` the table's keys are the old ones plus those of `l`; every key of `l` holds a handle fresh in this call with a goroutine holding it; other entries are unchanged |
| `KeyGroupState.StartAllHandles` | keygroup.go:51-53 | for a list without repetitions the i-th key holds the i-th fresh handle |
| `KeyGroupState.StartAllTasks` | keygroup.go:51-60 | the goroutines after `run(l)` are the old ones and exactly one per element of `l`, with that element's key and fresh handle |
| `KeyGroupState.StartAllValid` | keygroup.go:50-62 | `run` of user keys keeps the invariant |
| `KeyGroupState.Init` | keygroup.go:32-43 | computes the new group: no active key, a table holding only the root entry `"main"` with handle 0, counter zero, no goroutine, and the root context done exactly when the parent is |
| `KeyGroupState.CancelAll` | keygroup.go:46-48 | computes `Cancel()`: the root context becomes done; nothing else changes |
| `KeyGroupState.StartKey` | keygroup.go:52-60 | computes one turn of `run`'s loop: the next handle stored under the key, the counter raised, and a goroutine with that key and handle launched |
| `KeyGroupState.StopKey` | keygroup.go:66-67 | computes one turn of `stop`'s loop: the key's handle joins the cancelled ones and its entry is deleted |
| `KeyGroupState.Update` | keygroup.go:73-80 | computes `Update(ks)`: `run` of the keys to start, then `stop` of the keys to stop, then the set of `ks` as the active set |
| `KeyGroupState.Add` | keygroup.go:94-96 | computes `Add(ks)`: `Update` of the listed active keys followed by `ks` |
| `KeyGroupState.StopKeys` | keygroup.go:99-102 | computes `StopKeys(ks)`: `stop(ks)`, then the keys of `ks` removed from the active set |
| `KeyGroupState.Complete` | keygroup.go:57-59 | computes a goroutine's return as written: the counter lowered, its key removed from the active set, the goroutine gone, the table untouched |
| `KeyGroupState.CompleteAll` | keygroup.go:56-59 | the returns as written of distinct goroutines one after another lower the counter by their number and remove exactly those goroutines and their keys |
| `Ownership.CompleteGuarded` | keygroup.go:56-59 | computes the corrected return: as `Complete`, except that the key leaves the active set only while its entry still holds the goroutine's handle |
| `KeyGroupState.StartKeyValid` | keygroup.go:52-60 | one launch keeps the invariant: the new handle is distinct from all earlier ones and the counter equals the number of goroutines |
| `KeyGroups.KeyGroup.Stop` | keygroup.go:64-69 | the loop of `stop`, proved by its invariant to end in `StopAll` of the old state and the list |
| `KeyGroupState.StopAll` | keygroup.go:64-69 | `stop(l)` on distinct keys with entries cancels exactly their handles and deletes exactly their entries |
| `KeyGroupState.StopAllStep` | keygroup.go:65-68 | one more turn of the loop of `stop`; the next key still has its entry, so no nil function is called |
| `KeyGroupState.StopAllHandlesValid` | keygroup.go:64-69 | `stop` of user keys keeps the table and handle invariant, and the root handle stays uncancelled |
| `Seqs.List` | keygroup.go:75-78 | `strset.List()` returns a list holding every element of the set exactly once |
| `KeyGroups.KeyGroup.Update` | keygroup.go:73-80 | `Update(ks)` keeps the invariants, makes the active set the set of `ks`, starts exactly the new keys with fresh entries whose handles are not among the cancelled ones, cancels and deletes exactly the dropped keys, and leaves every other entry unchanged |
| `KeyGroupState.UpdateShape` | keygroup.go:73-80 | the state after `Update` is that after `run`, with the dropped keys' entries deleted, their old handles cancelled, and the active set replaced by the set of `ks` |
| `KeyGroupState.UpdateStarts` | keygroup.go:74-77 | every key of `ks` that was not active gets an entry with a fresh handle, not among the cancelled ones, and a goroutine holding it |
| `KeyGroupState.UpdateStops` | keygroup.go:74-78 | every active key not in `ks` loses its entry and its old handle is cancelled |
| `KeyGroupState.KeptHandleUnchanged` | keygroup.go:74-78 | an entry whose key `ks` keeps active or keeps inactive (the root among them) stays, and so does whether its handle is cancelled |
| `KeyGroupState.UpdateKeeps` | keygroup.go:74-78 | the same for every such entry at once |
| `KeyGroupState.UpdateTasks` | keygroup.go:75-77 | the goroutines after `Update` are the old ones plus exactly one per new key, holding that key's new entry |
| `KeyGroupState.UpdateEffects` | keygroup.go:73-80 | all of the above together with the new log, counter and cancelled set: exactly the new keys are started, exactly the dropped keys are stopped |
| `KeyGroupState.UpdateValid` | keygroup.go:73-80 | `Update` with user keys keeps the invariant |
| `KeyGroupState.UpdateIdempotent` | keygroup.go:74-80 | a second `Update` with the same list finds both differences empty and leaves the state as it was |
| `KeyGroups.KeyGroup.Add` | keygroup.go:94-96 | `Add(ks)` is `Update` on the active keys followed by `ks`: it keeps the invariants, makes the active set the old one plus `ks`, starts exactly the keys of `ks` not already active with fresh uncancelled handles, adds exactly those keys to the table, cancels nothing, and leaves every other entry unchanged |
| `KeyGroupState.AddEffects` | keygroup.go:94-96 | `Add` is `Update` on the active keys followed by `ks`: it stops nothing, starts exactly the keys of `ks` that were not active, and keeps the invariant |
| `KeyGroups.KeyGroup.StopKeys` | keygroup.go:99-102 | `StopKeys(ks)` on distinct keys with entries removes them from the active set and the table with their handles cancelled; every other key keeps its membership, entry and cancellation; goroutines and counter are unchanged |
| `KeyGroupState.StopKeysEffects` | keygroup.go:99-102 | the same at the level of states, with the invariant kept |
| `KeyGroupState.CompleteEffects` | keygroup.go:57-59 | a goroutine's return as written lowers the counter, removes its key from the active set, leaves the table and the cancelled handles alone, and keeps the invariant |
| `KeyGroupState.RestartAfterComplete` | keygroup.go:53-59 | after a goroutine for `k` has returned, an `Update` listing `k` starts it again with a fresh handle that overwrites the entry left behind |
| `KeyGroups.KeyGroup.Complete` | keygroup.go:56-60 | a goroutine's return with the corrected guard: the counter drops, the key leaves the active set exactly when its entry is still this goroutine's, the table stays |
| `KeyGroups.KeyGroup.CancelWait` | keygroup.go:88-91 | `CancelWait` cancels the root: afterwards every running goroutine's context is done |
| `KeyGroupState.CancelWaitDrains` | keygroup.go:83-91 | after `Cancel`, once every goroutine has returned in any order, the counter is zero, no goroutine is left and no key is active, and table and log are as before |
| `Ownership.CompleteAllGuarded` | keygroup.go:56-59 | the guarded returns of distinct running goroutines, one after another, remove exactly those goroutines, lower the counter by their number and leave table, cancelled handles and log alone |
| `Ownership.CompleteAllGuardedValid` | keygroup.go:56-60 | such a sequence of guarded returns keeps the invariant and ownership, and can never return more goroutines than the counter holds |
| `Ownership.CancelWaitDrainsGuarded` | keygroup.go:83-91 | after `Cancel`, once every goroutine has returned with the guarded return in any order, the counter is zero, no goroutine is left, no key is active and the table is as before |
| `KeyGroupState.DrainedIsIdle` | keygroup.go:83-85 | in the model, where a goroutine's `wg.Done()` and `keys.Remove` are one step, a zero counter leaves no goroutine and no active key |
| `Ownership.OneLiveTaskPerKey` | keygroup.go:53-60 | under ownership no key has two goroutines with live contexts |
| `Ownership.UpdateOwned` | keygroup.go:73-80 | `Update` keeps ownership |
| `Ownership.AddOwned` | keygroup.go:94-96 | `Add` keeps ownership |
| `Ownership.StopKeysOwned` | keygroup.go:99-102 | `StopKeys` keeps ownership |
| `Ownership.CompleteGuardedAgrees` | keygroup.go:56-60 | the guarded return equals the one in the source when the goroutine is its key's current one, and otherwise differs only in leaving the active set unchanged |
| `Ownership.CompleteGuardedEffects` | keygroup.go:56-60 | the guarded return keeps the invariant and ownership, lowers the counter, and removes the key exactly when its entry is still the returning goroutine's |
| `Ownership.RestartAfterCompleteGuarded` | keygroup.go:53-59 | with the guarded return, a key whose current goroutine returned is started again by a later `Update` with a fresh handle |
| `Ownership.UpdateStartsOnly` | keygroup.go:73-80 | `Update([k])` on a group with no active key starts `k` alone |
| `Ownership.UpdateStopsOnly` | keygroup.go:73-80 | `Update([])` on a group whose only active key is `k` stops `k` |
| `Ownership.UpdateKeepsOnly` | keygroup.go:73-80 | `Update([k])` on a group whose only active key is `k` changes nothing |
| `Ownership.ReaddedKey` | keygroup.go:73-80 | `Update(["1"])`, `Update([])`, `Update(["1"])` leave two goroutines for `"1"`, the first cancelled, the second current |
| `Ownership.StaleCompletionOrphans` | keygroup.go:56-60 | if the cancelled goroutine then returns as written, the next `Update(["1"])` runs a third goroutine beside the live second one and ownership is lost; with the guarded return nothing is started |
| `Example.ScriptKeysOfExample` | keygroup_test.go:22-24 | the keys "1" to "6" of the script are distinct and none is `"main"` |
| `Example.ExampleAdd` | keygroup_test.go:22 | `Add("1", …, "5")` on a group with no key activates the five keys and launches five goroutines |
| `Example.ExampleUpdate` | keygroup_test.go:24-36 | the script's `Update` stops "3" alone and starts "6" alone, and keeps the entry of "2" |
| `Example.ExampleReturnsAgree` | keygroup_test.go:24-37 | in the script the returns of "3" and "2" are the same whether guarded or as written |
| `Example.ExampleStopKeys` | keygroup_test.go:26 | `StopKeys("2")` stops "2", leaves "1", "4", "5", "6" active and the goroutine of "2" still counted |
| `Example.ExampleStopAndReturn` | keygroup_test.go:24-37 | after the script's `Update` the goroutine of "3" returns ("stopping 3"), `StopKeys("2")` stops "2" and its goroutine returns ("stopping 2"), leaving "1", "4", "5", "6" active with two goroutines fewer |
| `Example.ExampleKeyGroup` | keygroup_test.go:21-41 | the whole script from a new group: "3" stopped and "6" started by `Update` with six goroutines counted, the goroutines of "3" and "2" returned leaving four, and after `CancelWait` the remaining four return in any order to a zero counter and no active key |

## Left out

- Goroutines, `sync.WaitGroup` blocking and the delivery of cancellation are not modelled: a launch is a record in `tasks`, a return is the separate event `Complete`, and the counter is a number.
- `Wait` is the predicate `KeyGroups.KeyGroup.Idle` (counter zero); nothing blocks.
- A goroutine's `wg.Done()` and its `keys.Remove(localKey)` (keygroup.go:58-59) are one step, `Complete`, in the model; the invariant `inflight == |tasks|` depends on it. In the source `Wait` can return between the two, while keys are still active, so "counter zero implies no active key" (`KeyGroupState.DrainedIsIdle`, the drain lemmas) holds of the model only.
- KeyGroups.KeyGroup.CancelWait: cancels the root but does not wait; what the wait reaches is stated by `Ownership.CancelWaitDrainsGuarded` (and, for the return as written, by `KeyGroupState.CancelWaitDrains`).
- The data races between `Update` or `StopKeys` and a goroutine's return (the source has no lock) are not modelled: each operation is one atomic step, and returns interleave between them.
- The user function `Func` is not modelled; it is only assumed to return eventually.
- The order of `strset.List()` is not modelled: `Seqs.List` returns some enumeration, and the step functions take the two lists as parameters constrained to enumerate the two set differences.
- KeyGroups.KeyGroup.Update: requires that `ks` does not contain `"main"`; the source would overwrite the root entry's cancel function with such a key.
- KeyGroups.KeyGroup.Add: requires that `ks` does not contain `"main"`, as for `Update`.
- KeyGroups.KeyGroup.StopKeys: requires distinct keys that all hold an entry and are not `"main"`; the source calls a nil function for a key without an entry, which includes a key listed twice.
- Cancellation of the parent context after construction is not modelled; only whether it is already done at construction.
- The scheduling and output of keygroup_test.go (`time.Sleep`, `fmt.Println`) are not modelled; the script is followed at the level of sets, for any six distinct keys in the roles of "1" to "6".
- KeyGroups.KeyGroup.Complete: follows the corrected completion of the finding below, not the source's unconditional `keys.Remove`, which is `KeyGroupState.Complete`.

## Findings

| source | as written | input that shows it | evidently intended | confidence | as-written member | corrected member |
|---|---|---|---|---|---|---|
| keygroup.go:56-60 | a goroutine removes its key from the active set when it returns, even when the key was stopped and started again meanwhile, so the key's newer goroutine no longer counts as active | `Update(["1"])`, `Update([])`, `Update(["1"])`, then the first goroutine returns, then `Update(["1"])`: a third goroutine for "1" starts, the second keeps running with no entry, and only `Cancel` can stop it | a returning goroutine removes its key only while the key's entry is still its own | not executed; medium | `Ownership.StaleCompletionOrphans` | `Ownership.CompleteGuarded` |
