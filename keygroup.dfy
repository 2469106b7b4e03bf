/**
 The `KeyGroup` of keygroup.go as a class. Its fields are the source's
 `keys`, `cancel` and `wg` (as the counter `inflight`), with the contexts the
 cancel functions belong to named by `HandleId`s: `cancelled` holds the
 handles whose cancel function has been called, `rootCancelled` whether the
 root context (the one under `"main"`) is done, and `nextHandle` the handle the
 next `context.WithCancel` returns. Launching a goroutine records its key in the
 ghost log `started` and the goroutine in the ghost set `tasks`; the
 goroutine's return is the separate event `Complete`.

 Every method keeps `Valid()` and states its new state as a step function
 applied to the old one: that of `KeyGroupState` for the operations, and the
 guarded return `Ownership.CompleteGuarded` for `Complete`; the lemmas beside
 them say what those steps do.
 */
module KeyGroups {
  import opened Seqs
  import S = KeyGroupState
  import O = Ownership

  class KeyGroup {
    var keys: set<string>
    var cancel: map<string, S.HandleId>
    var cancelled: set<S.HandleId>
    var rootCancelled: bool
    var inflight: nat
    var nextHandle: S.HandleId
    ghost var started: seq<string>
    ghost var tasks: set<S.Task>

    /** The object's state as a value. */
    ghost function View(): S.State
      reads this
    {
      S.State(keys, cancel, cancelled, rootCancelled, inflight, nextHandle, started, tasks)
    }

    /** The invariant of `KeyGroupState` and the ownership of entries. */
    ghost predicate Valid()
      reads this
    {
      S.Valid(View()) && O.Owned(View())
    }

    /** `Wait()` returns once this holds. */
    ghost predicate Idle()
      reads this
    {
      S.Drained(View())
    }

    /** `NewKeyGroup(f)`: a group under `context.Background()`, which is never done. */
    constructor ()
      ensures Valid() && View() == S.Init(false)
      ensures keys == {} && cancel == map[S.Main := S.RootHandle] && inflight == 0 && !rootCancelled
    {
      keys := {};
      cancel := map[S.Main := S.RootHandle];
      cancelled := {};
      rootCancelled := false;
      inflight := 0;
      nextHandle := S.RootHandle + 1;
      started := [];
      tasks := {};
      S.InitValid(false);
      O.InitOwned(false);
    }

    /** `NewKeyGroupWithContext(ctx, f)`: the root context is derived from the
        caller's, so it starts out done when the caller's is already done. */
    constructor WithContext(parentCancelled: bool)
      ensures Valid() && View() == S.Init(parentCancelled)
      ensures keys == {} && cancel == map[S.Main := S.RootHandle] && inflight == 0
      ensures rootCancelled == parentCancelled
    {
      keys := {};
      cancel := map[S.Main := S.RootHandle];
      cancelled := {};
      rootCancelled := parentCancelled;
      inflight := 0;
      nextHandle := S.RootHandle + 1;
      started := [];
      tasks := {};
      S.InitValid(parentCancelled);
      O.InitOwned(parentCancelled);
    }

    /** `Cancel()`: call the root entry's cancel function. Every per-key
        context derives from the root, so every goroutine's context is done. */
    method Cancel()
      requires Valid()
      modifies this
      ensures Valid() && View() == S.CancelAll(old(View()))
      ensures rootCancelled
      ensures forall t :: t in tasks ==> S.IsCancelled(View(), t.handle)
      ensures keys == old(keys) && cancel == old(cancel) && cancelled == old(cancelled)
      ensures inflight == old(inflight) && tasks == old(tasks)
    {
      assert cancel[S.Main] == S.RootHandle;
      rootCancelled := true;
      S.CancelAllEffects(old(View()));
      O.CancelAllOwned(old(View()));
    }

    /** `run(ks)`: for each key in turn, a fresh context, its cancel function
        stored under the key, the counter raised and a goroutine launched. */
    method Run(ks: seq<string>)
      modifies this
      ensures View() == S.StartAll(old(View()), ks)
    {
      for i := 0 to |ks|
        invariant View() == S.StartAll(old(View()), ks[..i])
      {
        var key := ks[i];
        S.StartAllStep(old(View()), ks, i);
        ghost var before := View();
        cancel := cancel[key := nextHandle];
        inflight := inflight + 1;
        started := started + [key];
        tasks := tasks + {S.Task(key, nextHandle)};
        nextHandle := nextHandle + 1;
        assert View() == S.StartKey(before, key);
      }
      assert ks[..|ks|] == ks;
    }

    /** `stop(ks)`: for each key in turn, call its cancel function and delete
        its entry. A key without an entry would be a call of a nil function. */
    method Stop(ks: seq<string>)
      requires Distinct(ks) && Elems(ks) <= cancel.Keys
      modifies this
      ensures View() == S.StopAll(old(View()), ks)
    {
      for i := 0 to |ks|
        invariant View() == S.StopAll(old(View()), ks[..i])
      {
        var key := ks[i];
        S.StopAllStep(old(View()), ks, i);
        ghost var before := View();
        cancelled := cancelled + {cancel[key]};
        cancel := cancel - {key};
        assert View() == S.StopKey(before, key);
      }
      assert ks[..|ks|] == ks;
    }

    /** `Update(ks)`: start the keys of `ks` that are not active, stop the
        active keys that are not in `ks`, and make the keys of `ks` the active
        set. `toStart` and `toStop` are the two lists `strset.List()` gave. */
    method Update(ks: seq<string>) returns (ghost toStart: seq<string>, ghost toStop: seq<string>)
      requires Valid() && S.Main !in ks
      modifies this
      ensures Valid()
      ensures Enumerates(toStart, Elems(ks) - old(keys)) && Enumerates(toStop, old(keys) - Elems(ks))
      ensures View() == S.Update(old(View()), ks, toStart, toStop)
      ensures keys == Elems(ks)
      ensures started == old(started) + toStart
      ensures inflight == old(inflight) + |Elems(ks) - old(keys)|
      ensures forall k :: k in Elems(ks) - old(keys) ==>
        k in cancel && old(nextHandle) <= cancel[k] && cancel[k] !in cancelled
      ensures forall k :: k in old(keys) - Elems(ks) ==> k !in cancel && old(cancel)[k] in cancelled
      ensures forall k :: k in old(cancel) && (k in Elems(ks) <==> k in old(keys)) ==>
        k in cancel && cancel[k] == old(cancel)[k]
    {
      var current := Elems(ks);
      var startList := List(current - keys);
      var stopList := List(keys - current);
      ghost var s0 := View();
      Run(startList);
      Stop(stopList);
      keys := current;
      toStart, toStop := startList, stopList;
      S.UpdateValid(s0, ks, toStart, toStop);
      O.UpdateOwned(s0, ks, toStart, toStop);
      ghost var r := S.Update(s0, ks, toStart, toStop);
      assert View() == r;
      assert cancel == r.cancel && cancelled == r.cancelled && s0.cancel == old(cancel) && s0.keys == old(keys);
      S.UpdateEffects(s0, ks, toStart, toStop);
    }

    /** `Add(ks)`: `Update` on the active keys followed by `ks`. `listed` is
        the list `strset.List()` gave for the active keys. */
    method Add(ks: seq<string>) returns (ghost listed: seq<string>, ghost toStart: seq<string>, ghost toStop: seq<string>)
      requires Valid() && S.Main !in ks
      modifies this
      ensures Valid()
      ensures S.AddPre(old(View()), listed, ks, toStart, toStop)
      ensures View() == S.Add(old(View()), listed, ks, toStart, toStop)
      ensures Enumerates(toStart, Elems(ks) - old(keys)) && toStop == []
      ensures keys == old(keys) + Elems(ks)
      ensures cancel.Keys == old(cancel).Keys + (Elems(ks) - old(keys))
      ensures started == old(started) + toStart
      ensures inflight == old(inflight) + |Elems(ks) - old(keys)|
      ensures cancelled == old(cancelled) && rootCancelled == old(rootCancelled)
      ensures forall k :: k in Elems(ks) - old(keys) ==>
        k in cancel && old(nextHandle) <= cancel[k] && cancel[k] !in cancelled
      ensures forall k :: k in old(cancel) && k !in Elems(ks) - old(keys) ==>
        k in cancel && cancel[k] == old(cancel)[k]
    {
      ghost var s0 := View();
      var current := List(keys);
      ElemsConcat(current, ks);
      assert S.Main !in current + ks by {
        assert S.Main !in Elems(current + ks);
      }
      toStart, toStop := Update(current + ks);
      listed := current;
      S.AddEffects(s0, current, ks, toStart, toStop);
    }

    /** `StopKeys(ks)`: stop the listed keys and remove them from the active
        set. Every listed key must have an entry, once. */
    method StopKeys(ks: seq<string>)
      requires Valid() && S.Main !in ks && Distinct(ks) && Elems(ks) <= cancel.Keys
      modifies this
      ensures Valid() && View() == S.StopKeys(old(View()), ks)
      ensures keys == old(keys) - Elems(ks)
      ensures forall k :: k in ks ==> k !in cancel && old(cancel)[k] in cancelled
      ensures forall k :: k in old(cancel) && k !in ks ==>
        k in cancel && cancel[k] == old(cancel)[k] && (old(cancel)[k] in cancelled <==> old(cancel)[k] in old(cancelled))
      ensures inflight == old(inflight) && tasks == old(tasks) && rootCancelled == old(rootCancelled)
    {
      ghost var s0 := View();
      Stop(ks);
      keys := keys - Elems(ks);
      S.StopKeysEffects(s0, ks);
      O.StopKeysOwned(s0, ks);
    }

    /** The return of the goroutine launched for `key` with the context
        `handle`: `wg.Done()`, then the key leaves the active set, but only
        while its entry is still this goroutine's (see `Ownership`). The
        entry stays. */
    method Complete(key: string, handle: S.HandleId)
      requires Valid() && S.Task(key, handle) in tasks
      modifies this
      ensures Valid() && View() == O.CompleteGuarded(old(View()), S.Task(key, handle))
      ensures inflight == old(inflight) - 1
      ensures key in old(cancel) && old(cancel)[key] == handle ==> keys == old(keys) - {key}
      ensures !(key in old(cancel) && old(cancel)[key] == handle) ==> keys == old(keys)
      ensures cancel == old(cancel) && cancelled == old(cancelled)
    {
      O.CompleteGuardedEffects(View(), S.Task(key, handle));
      inflight := inflight - 1;
      if key in cancel && cancel[key] == handle {
        keys := keys - {key};
      }
      tasks := tasks - {S.Task(key, handle)};
    }

    /** `CancelWait()` without the wait: the wait is the predicate `Idle()`,
        which `Ownership.CancelWaitDrainsGuarded` shows is reached, with no
        key left active, once every goroutine has returned through `Complete`. */
    method CancelWait()
      requires Valid()
      modifies this
      ensures Valid() && View() == S.CancelAll(old(View()))
      ensures forall t :: t in tasks ==> S.IsCancelled(View(), t.handle)
    {
      Cancel();
    }
  }
}
