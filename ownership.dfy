/**
 Which goroutine a key's table entry belongs to.

 A goroutine launched by `run` ends with `keys.Remove(localKey)` whatever has
 happened to its key meanwhile (keygroup.go, lines 56-60). When the key was
 stopped and started again before the old goroutine returned, that return
 removes the key that the new goroutine serves: the group then believes the
 key inactive, the next `Update` listing it launches a second goroutine and
 overwrites the table entry of the first, whose context nobody can cancel any
 more except through the root. `StaleCompletionOrphans` shows this on a
 concrete run of `Update`s.

 `CompleteGuarded` is the completion that removes the key only when the table
 entry still holds the returning goroutine's handle. With it, `Owned` holds
 after every operation: each goroutine whose context is not done is the one
 its key's entry names, and its key is active.
 */
module Ownership {
  import opened Seqs
  import opened KeyGroupState

  /** Every goroutine still running with a live context is the one its key's
      table entry names, and its key is active. */
  ghost predicate Owned(s: State)
  {
    forall t :: t in s.tasks && !IsCancelled(s, t.handle) ==>
      t.key in s.keys && t.key in s.cancel && s.cancel[t.key] == t.handle
  }

  /** Under `Owned`, no key has two goroutines with live contexts. */
  lemma OneLiveTaskPerKey(s: State, t1: Task, t2: Task)
    requires Owned(s)
    requires t1 in s.tasks && !IsCancelled(s, t1.handle)
    requires t2 in s.tasks && !IsCancelled(s, t2.handle)
    requires t1.key == t2.key
    ensures t1 == t2
  {
  }

  lemma InitOwned(parentCancelled: bool)
    ensures Owned(Init(parentCancelled))
  {
  }

  /** `Update` keeps `Owned`: a kept key keeps its entry and its goroutine, a
      stopped key's goroutine is cancelled, a started key's entry is its new
      goroutine. */
  lemma UpdateOwned(s: State, ks: seq<string>, toStart: seq<string>, toStop: seq<string>)
    requires Valid(s) && Owned(s) && UpdatePre(s, ks, toStart, toStop)
    ensures Owned(Update(s, ks, toStart, toStop))
  {
    UpdateEffects(s, ks, toStart, toStop);
    var r := Update(s, ks, toStart, toStop);
    forall t | t in r.tasks && !IsCancelled(r, t.handle)
      ensures t.key in r.keys && t.key in r.cancel && r.cancel[t.key] == t.handle
    {
      if t in s.tasks {
        assert !IsCancelled(s, t.handle);
        assert t.key in s.keys && s.cancel[t.key] == t.handle;
        assert t.key in Elems(ks);
      }
    }
  }

  /** `Add` is an `Update`, so it keeps `Owned` too. */
  lemma AddOwned(s: State, current: seq<string>, ks: seq<string>, toStart: seq<string>, toStop: seq<string>)
    requires Valid(s) && Owned(s) && AddPre(s, current, ks, toStart, toStop)
    ensures Owned(Add(s, current, ks, toStart, toStop))
  {
    UpdateOwned(s, current + ks, toStart, toStop);
  }

  /** `StopKeys` keeps `Owned`: a listed key's goroutine is the one its entry
      named, and that entry's handle is now cancelled. */
  lemma StopKeysOwned(s: State, ks: seq<string>)
    requires Valid(s) && Owned(s) && Main !in ks && StopKeysPre(s, ks)
    ensures Owned(StopKeys(s, ks))
  {
    StopKeysEffects(s, ks);
    var r := StopKeys(s, ks);
    forall t | t in r.tasks && !IsCancelled(r, t.handle)
      ensures t.key in r.keys && t.key in r.cancel && r.cancel[t.key] == t.handle
    {
      assert !IsCancelled(s, t.handle);
      assert t.key !in ks;
    }
  }

  /** After `Cancel()` no goroutine has a live context. */
  lemma CancelAllOwned(s: State)
    ensures Owned(CancelAll(s))
    ensures forall t :: t in CancelAll(s).tasks ==> IsCancelled(CancelAll(s), t.handle)
  {
  }

  /** The return of goroutine `t`, removing its key only while the key's entry
      is still `t`'s own. The entry stays, as in `Complete`. */
  function CompleteGuarded(s: State, t: Task): State
    requires t in s.tasks && 0 < s.inflight
  {
    var current := t.key in s.cancel && s.cancel[t.key] == t.handle;
    s.(inflight := s.inflight - 1,
       keys := if current then s.keys - {t.key} else s.keys,
       tasks := s.tasks - {t})
  }

  /** The guarded return differs from the one in the source only when the
      returning goroutine is no longer its key's current one, and then only
      in leaving the active set alone. */
  lemma CompleteGuardedAgrees(s: State, t: Task)
    requires t in s.tasks && 0 < s.inflight
    ensures t.key in s.cancel && s.cancel[t.key] == t.handle ==> CompleteGuarded(s, t) == Complete(s, t)
    ensures !(t.key in s.cancel && s.cancel[t.key] == t.handle) ==>
      CompleteGuarded(s, t) == Complete(s, t).(keys := s.keys)
  {
  }

  /** The guarded return keeps both invariants, lowers the counter, and
      removes the key exactly when the returning goroutine was its current one. */
  lemma CompleteGuardedEffects(s: State, t: Task)
    requires Valid(s) && Owned(s) && t in s.tasks
    ensures 0 < s.inflight
    ensures var r := CompleteGuarded(s, t);
      && Valid(r) && Owned(r)
      && r.inflight == s.inflight - 1
      && r.cancel == s.cancel && r.cancelled == s.cancelled
      && (t.key in s.cancel && s.cancel[t.key] == t.handle ==> r.keys == s.keys - {t.key})
      && (!(t.key in s.cancel && s.cancel[t.key] == t.handle) ==> r.keys == s.keys)
  {
    assert |s.tasks - {t}| == |s.tasks| - 1;
    var r := CompleteGuarded(s, t);
    forall k | k in r.keys ensures Task(k, r.cancel[k]) in r.tasks {
      assert Task(k, s.cancel[k]) != t;
    }
    forall u | u in r.tasks && !IsCancelled(r, u.handle)
      ensures u.key in r.keys && u.key in r.cancel && r.cancel[u.key] == u.handle
    {
      assert u != t;
    }
  }

  /** When the returning goroutine was its key's current one, the key leaves
      the active set, and a later `Update` listing it starts it again with a
      fresh handle that overwrites the entry left behind. */
  lemma RestartAfterCompleteGuarded(s: State, t: Task, ks: seq<string>, toStart: seq<string>, toStop: seq<string>)
    requires Valid(s) && t in s.tasks && 0 < s.inflight && t.key in ks
    requires t.key in s.cancel && s.cancel[t.key] == t.handle
    requires UpdatePre(CompleteGuarded(s, t), ks, toStart, toStop)
    ensures var u := Update(CompleteGuarded(s, t), ks, toStart, toStop);
      && t.key in Elems(toStart)
      && t.key in u.cancel && s.nextHandle <= u.cancel[t.key] && u.cancel[t.key] != t.handle
      && Task(t.key, u.cancel[t.key]) in u.tasks
  {
    CompleteGuardedAgrees(s, t);
    RestartAfterComplete(s, t, ks, toStart, toStop);
  }

  /** The goroutines in `order` return one after the other, each with the
      guarded return: they leave, the counter drops by one each, no key
      becomes active, and the table and the root flag stay. */
  function CompleteAllGuarded(s: State, order: seq<Task>): (r: State)
    requires Distinct(order) && Elems(order) <= s.tasks && |order| <= s.inflight
    ensures r.tasks == s.tasks - Elems(order) && r.inflight == s.inflight - |order|
    ensures r.keys <= s.keys && r.cancel == s.cancel && r.cancelled == s.cancelled
    ensures r.rootCancelled == s.rootCancelled && r.started == s.started && r.nextHandle == s.nextHandle
    decreases |order|
  {
    if order == [] then s
    else
      var n := |order| - 1;
      DistinctPrefix(order, n);
      ElemsSnoc(order);
      CompleteGuarded(CompleteAllGuarded(s, order[..n]), order[n])
  }

  /** Those returns keep both invariants. */
  lemma {:induction false} CompleteAllGuardedValid(s: State, order: seq<Task>)
    requires Valid(s) && Owned(s) && Distinct(order) && Elems(order) <= s.tasks
    ensures |order| <= s.inflight
    ensures Valid(CompleteAllGuarded(s, order)) && Owned(CompleteAllGuarded(s, order))
    decreases |order|
  {
    EnumerationSize(order, Elems(order));
    assert |Elems(order)| <= |s.tasks| by {
      SubsetSize(Elems(order), s.tasks);
    }
    if order != [] {
      var n := |order| - 1;
      DistinctPrefix(order, n);
      ElemsSnoc(order);
      CompleteAllGuardedValid(s, order[..n]);
      var r0 := CompleteAllGuarded(s, order[..n]);
      CompleteGuardedEffects(r0, order[n]);
    }
  }

  /** `CancelWait()` with the guarded return: once every goroutine has
      returned, in whatever order, the counter is zero, no goroutine is left,
      no key is active, and the table is as it was. */
  lemma CancelWaitDrainsGuarded(s: State, order: seq<Task>)
    requires Valid(s) && Enumerates(order, s.tasks)
    ensures |order| <= s.inflight
    ensures var r := CompleteAllGuarded(CancelAll(s), order);
      && Drained(r) && r.tasks == {} && r.keys == {} && r.rootCancelled && r.cancel == s.cancel
  {
    CancelAllEffects(s);
    CancelAllOwned(s);
    CompleteAllGuardedValid(CancelAll(s), order);
    var r := CompleteAllGuarded(CancelAll(s), order);
    DrainedIsIdle(r);
  }

  // ---------------------------------------------------------------------------
  // The stale completion, on a concrete run

  /** `Update([k])` on a group with no active key starts `k` alone. */
  lemma UpdateStartsOnly(s: State, k: string)
    requires s.keys == {}
    ensures UpdatePre(s, [k], [k], [])
    ensures Update(s, [k], [k], []) == StartKey(s, k).(keys := {k})
  {
    assert [k][0] == k;
    assert Elems([k]) == {k};
    assert [k][..0] == [];
    assert StartAll(s, [k]) == StartKey(s, k);
    assert StopAll(StartKey(s, k), []) == StartKey(s, k);
  }

  /** `Update([])` on a group whose only active key is `k` stops `k`. */
  lemma UpdateStopsOnly(s: State, k: string)
    requires s.keys == {k} && k in s.cancel
    ensures UpdatePre(s, [], [], [k])
    ensures Update(s, [], [], [k]) == StopKey(s, k).(keys := {})
  {
    assert [k][0] == k;
    assert Elems([k]) == {k};
    assert [k][..0] == [];
  }

  /** `Update([k])` on a group whose only active key is `k` does nothing. */
  lemma UpdateKeepsOnly(s: State, k: string)
    requires s.keys == {k} && k in s.cancel
    ensures UpdatePre(s, [k], [], [])
    ensures Update(s, [k], [], []) == s
  {
    assert [k][0] == k;
    assert Elems([k]) == {k};
  }

  /** `Update(["1"])`, `Update([])`, `Update(["1"])` from a new group: the
      first goroutine for `"1"` is cancelled but has not returned, and the
      second one is the key's current one. */
  lemma ReaddedKey()
    ensures var s1 := Update(Init(false), ["1"], ["1"], []);
      && UpdatePre(s1, [], [], ["1"])
      && var s2 := Update(s1, [], [], ["1"]);
      && UpdatePre(s2, ["1"], ["1"], [])
      && Update(s2, ["1"], ["1"], [])
         == State({"1"}, map[Main := 0, "1" := 2], {1}, false, 2, 3, ["1", "1"], {Task("1", 1), Task("1", 2)})
  {
    var s0 := Init(false);
    UpdateStartsOnly(s0, "1");
    var s1 := Update(s0, ["1"], ["1"], []);
    assert s1.cancel == map[Main := 0, "1" := 1];
    UpdateStopsOnly(s1, "1");
    var s2 := Update(s1, [], [], ["1"]);
    assert s2.cancel == map[Main := 0];
    UpdateStartsOnly(s2, "1");
  }

  /** Then the first goroutine, cancelled by the second `Update`, returns, and
      `Update(["1"])` comes again. With the return as written the last
      `Update` launches a third goroutine, and the second keeps running with
      no entry: two goroutines for `"1"` have live contexts, and `Owned` is
      lost. With the guarded return the key stays active and the last
      `Update` starts nothing. */
  lemma StaleCompletionOrphans()
    ensures var s3 := State({"1"}, map[Main := 0, "1" := 2], {1}, false, 2, 3, ["1", "1"], {Task("1", 1), Task("1", 2)});
      && Valid(s3) && Owned(s3)
      // as written
      && var c := Complete(s3, Task("1", 1));
      && UpdatePre(c, ["1"], ["1"], [])
      && var s5 := Update(c, ["1"], ["1"], []);
      && Task("1", 2) in s5.tasks && !IsCancelled(s5, 2)
      && Task("1", 3) in s5.tasks && !IsCancelled(s5, 3)
      && !Owned(s5)
      // guarded
      && var g := CompleteGuarded(s3, Task("1", 1));
      && UpdatePre(g, ["1"], [], [])
      && Update(g, ["1"], [], []).tasks == {Task("1", 2)}
  {
    var s3 := State({"1"}, map[Main := 0, "1" := 2], {1}, false, 2, 3, ["1", "1"], {Task("1", 1), Task("1", 2)});
    assert Valid(s3) by {
      assert |s3.tasks| == 2;
    }
    var c := Complete(s3, Task("1", 1));
    assert c.keys == {};
    UpdateStartsOnly(c, "1");
    var s5 := Update(c, ["1"], ["1"], []);
    assert s5.cancel["1"] == 3 && Task("1", 2) in s5.tasks;
    var g := CompleteGuarded(s3, Task("1", 1));
    assert g.keys == {"1"};
    UpdateKeepsOnly(g, "1");
  }
}
