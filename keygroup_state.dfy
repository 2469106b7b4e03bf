/**
 The bookkeeping of a key group (keygroup.go) as a value, with one function per
 step it takes. A `State` holds what a `KeyGroup` holds once the goroutines are
 taken away: the active key set `keys`, the cancel-handle table `cancel` (with
 the reserved root entry `"main"`), which handles have been cancelled, whether
 the root context has been cancelled, and the wait-group counter `inflight`.
 Two more parts exist only as a record: the log of every key started, in order,
 and the set of goroutines that have been launched and not yet returned.

 A context created by `context.WithCancel` is identified by a `HandleId`: the
 root context has handle 0 and the i-th goroutine launched gets handle i, so the
 log entry `started[i - 1]` names the key that handle i was created for.
 */
module KeyGroupState {
  import opened Seqs

  type HandleId = nat

  /** The table key under which the root context's cancel function is kept. */
  const Main: string := "main"
  const RootHandle: HandleId := 0

  /** A goroutine launched by `run`: the key it serves and the handle of its context. */
  datatype Task = Task(key: string, handle: HandleId)

  datatype State = State(
    keys: set<string>,
    cancel: map<string, HandleId>,
    cancelled: set<HandleId>,
    rootCancelled: bool,
    inflight: nat,
    nextHandle: HandleId,
    started: seq<string>,
    tasks: set<Task>)

  /** A per-key context is done once its own cancel function or the root's has been called. */
  predicate IsCancelled(s: State, h: HandleId)
  {
    s.rootCancelled || h in s.cancelled
  }

  /** The handles the table holds for the keys `ks`. */
  function HandlesOf(m: map<string, HandleId>, ks: set<string>): set<HandleId>
  {
    set k | k in ks && k in m :: m[k]
  }

  /** The invariant of the handle table, the handle counter and the goroutines,
      which holds between any two steps of an operation. */
  ghost predicate HandlesValid(s: State)
  {
    && Main in s.cancel && s.cancel[Main] == RootHandle
    && RootHandle !in s.cancelled
    && s.nextHandle == |s.started| + 1
    && (forall k :: k in s.cancel ==> s.cancel[k] < s.nextHandle)
    && (forall k1, k2 :: k1 in s.cancel && k2 in s.cancel && k1 != k2 ==> s.cancel[k1] != s.cancel[k2])
    && (forall h :: h in s.cancelled ==> h < s.nextHandle)
    && (forall t :: t in s.tasks ==> 0 < t.handle < s.nextHandle && s.started[t.handle - 1] == t.key)
    && s.inflight == |s.tasks|
  }

  /** The invariant between operations: besides the above, every active key is a
      user key, has a table entry, and the goroutine launched with that entry's
      context has not yet returned. */
  ghost predicate Valid(s: State)
  {
    && HandlesValid(s)
    && Main !in s.keys
    && (forall k :: k in s.keys ==> k in s.cancel && Task(k, s.cancel[k]) in s.tasks)
  }

  /** `NewKeyGroupWithContext`: no keys, no goroutines, only the root entry. The
      root context is already done when the parent context is. */
  function Init(parentCancelled: bool): State
  {
    State({}, map[Main := RootHandle], {}, parentCancelled, 0, RootHandle + 1, [], {})
  }

  lemma InitValid(parentCancelled: bool)
    ensures Valid(Init(parentCancelled))
    ensures Init(parentCancelled).keys == {} && Init(parentCancelled).inflight == 0
    ensures Init(parentCancelled).cancel.Keys == {Main}
    ensures IsCancelled(Init(parentCancelled), RootHandle) == parentCancelled
  {
  }

  // ---------------------------------------------------------------------------
  // run and stop

  /** One iteration of `run`'s loop: a fresh context for `k`, its cancel
      function stored under `k`, the counter raised and a goroutine launched. */
  function StartKey(s: State, k: string): State
  {
    s.(cancel := s.cancel[k := s.nextHandle],
       inflight := s.inflight + 1,
       nextHandle := s.nextHandle + 1,
       started := s.started + [k],
       tasks := s.tasks + {Task(k, s.nextHandle)})
  }

  /** `run(l)`: the loop over `l`, one goroutine launched per element. The
      effect on the table and the goroutines is `StartAllEntries`,
      `StartAllHandles` and `StartAllTasks`. */
  function StartAll(s: State, l: seq<string>): (r: State)
    ensures r.keys == s.keys && r.cancelled == s.cancelled && r.rootCancelled == s.rootCancelled
    ensures r.started == s.started + l
    ensures r.nextHandle == s.nextHandle + |l| && r.inflight == s.inflight + |l|
    ensures s.cancel.Keys <= r.cancel.Keys
    decreases |l|
  {
    if l == [] then s
    else
      var n := |l| - 1;
      assert l == l[..n] + [l[n]];
      StartKey(StartAll(s, l[..n]), l[n])
  }

  /** Every key of `l` gets a fresh entry (the last occurrence wins) with a
      goroutine holding it, and the other entries stay. */
  lemma {:induction false} StartAllEntries(s: State, l: seq<string>)
    ensures var r := StartAll(s, l);
      && r.cancel.Keys == s.cancel.Keys + Elems(l)
      && (forall k :: k in s.cancel && k !in l ==> r.cancel[k] == s.cancel[k])
      && (forall k :: k in l ==> s.nextHandle <= r.cancel[k] < r.nextHandle && Task(k, r.cancel[k]) in r.tasks)
    decreases |l|
  {
    if l != [] {
      var n := |l| - 1;
      var l0 := l[..n];
      assert l == l0 + [l[n]];
      ElemsSnoc(l);
      StartAllEntries(s, l0);
      assert StartAll(s, l) == StartKey(StartAll(s, l0), l[n]);
      assert forall k :: k in l <==> k in l0 || k == l[n];
    }
  }

  /** When `l` has no repetitions, its i-th key holds the i-th fresh handle. */
  lemma {:induction false} StartAllHandles(s: State, l: seq<string>)
    requires Distinct(l)
    ensures var r := StartAll(s, l);
      forall i :: 0 <= i < |l| ==> l[i] in r.cancel && r.cancel[l[i]] == s.nextHandle + i
    decreases |l|
  {
    if l != [] {
      var n := |l| - 1;
      var l0 := l[..n];
      assert l == l0 + [l[n]];
      DistinctPrefix(l, n);
      StartAllHandles(s, l0);
      var r0 := StartAll(s, l0);
      var r := StartAll(s, l);
      assert r == StartKey(r0, l[n]);
      forall i | 0 <= i < |l| ensures l[i] in r.cancel && r.cancel[l[i]] == s.nextHandle + i {
        if i < n {
          assert l[i] == l0[i] && l0[i] != l[n];
        }
      }
    }
  }

  /** The goroutines launched are exactly one per element of `l`, the i-th
      holding the i-th fresh handle. */
  lemma {:induction false} StartAllTasks(s: State, l: seq<string>)
    ensures var r := StartAll(s, l);
      forall t :: t in r.tasks <==>
        t in s.tasks || (s.nextHandle <= t.handle < r.nextHandle && t.key == l[t.handle - s.nextHandle])
    decreases |l|
  {
    if l != [] {
      var n := |l| - 1;
      var l0 := l[..n];
      assert l == l0 + [l[n]];
      StartAllTasks(s, l0);
      var r0 := StartAll(s, l0);
      var r := StartAll(s, l);
      assert r == StartKey(r0, l[n]);
      forall t ensures t in r.tasks <==>
        t in s.tasks || (s.nextHandle <= t.handle < r.nextHandle && t.key == l[t.handle - s.nextHandle])
      {
        if s.nextHandle <= t.handle < r0.nextHandle {
          assert l[t.handle - s.nextHandle] == l0[t.handle - s.nextHandle];
        }
      }
    }
  }

  /** One iteration of `stop`'s loop: call the cancel function kept under `k`
      and delete the entry. */
  function StopKey(s: State, k: string): State
    requires k in s.cancel
  {
    s.(cancelled := s.cancelled + {s.cancel[k]}, cancel := s.cancel - {k})
  }

  /** `stop(l)`: the loop over `l`. Each key must still have an entry when its
      turn comes (the source calls a nil function otherwise), so the keys are
      distinct and all in the table. Their handles become cancelled and their
      entries go; nothing else changes. */
  function StopAll(s: State, l: seq<string>): (r: State)
    requires Distinct(l) && Elems(l) <= s.cancel.Keys
    ensures r == s.(cancel := s.cancel - Elems(l),
                    cancelled := s.cancelled + HandlesOf(s.cancel, Elems(l)))
    decreases |l|
  {
    if l == [] then s
    else
      var n := |l| - 1;
      DistinctPrefix(l, n);
      ElemsSnoc(l);
      StopKey(StopAll(s, l[..n]), l[n])
  }

  /** One more turn of `run`'s loop. */
  lemma StartAllStep(s: State, l: seq<string>, i: nat)
    requires i < |l|
    ensures StartAll(s, l[..i + 1]) == StartKey(StartAll(s, l[..i]), l[i])
  {
    assert l[..i + 1][..i] == l[..i];
  }

  /** One more turn of `stop`'s loop: the next key still has its entry. */
  lemma StopAllStep(s: State, l: seq<string>, i: nat)
    requires i < |l| && Distinct(l) && Elems(l) <= s.cancel.Keys
    ensures Distinct(l[..i]) && Elems(l[..i]) <= s.cancel.Keys
    ensures Distinct(l[..i + 1]) && Elems(l[..i + 1]) <= s.cancel.Keys
    ensures l[i] in StopAll(s, l[..i]).cancel
    ensures StopAll(s, l[..i + 1]) == StopKey(StopAll(s, l[..i]), l[i])
  {
    assert l[..i + 1][..i] == l[..i];
    DistinctPrefix(l, i);
    assert l[i] in Elems(l);
    if i + 1 < |l| {
      DistinctPrefix(l, i + 1);
    } else {
      assert l[..i + 1] == l;
    }
    assert Elems(l[..i]) <= Elems(l) && Elems(l[..i + 1]) <= Elems(l) by {
      forall x | x in Elems(l[..i + 1]) ensures x in Elems(l) {
        var j :| 0 <= j < i + 1 && l[..i + 1][j] == x;
        assert l[j] == x;
      }
    }
  }

  lemma {:induction false} StartAllValid(s: State, l: seq<string>)
    requires Valid(s) && Main !in l
    ensures Valid(StartAll(s, l))
    decreases |l|
  {
    if l != [] {
      var n := |l| - 1;
      assert l[n] in l;
      assert Main !in l[..n] by {
        forall i | 0 <= i < n ensures l[..n][i] != Main { assert l[..n][i] == l[i]; }
      }
      StartAllValid(s, l[..n]);
      var r0 := StartAll(s, l[..n]);
      StartKeyValid(r0, l[n]);
      assert StartAll(s, l) == StartKey(r0, l[n]);
    }
  }

  lemma StartKeyValid(s: State, k: string)
    requires Valid(s) && k != Main
    ensures Valid(StartKey(s, k))
  {
    var r := StartKey(s, k);
    var t := Task(k, s.nextHandle);
    assert t !in s.tasks;
    assert |r.tasks| == |s.tasks| + 1;
    forall u | u in r.tasks
      ensures 0 < u.handle < r.nextHandle && r.started[u.handle - 1] == u.key
    {
      if u != t {
        assert u in s.tasks;
        assert r.started[u.handle - 1] == s.started[u.handle - 1];
      }
    }
  }

  lemma StopAllHandlesValid(s: State, l: seq<string>)
    requires HandlesValid(s) && Distinct(l) && Elems(l) <= s.cancel.Keys && Main !in l
    ensures HandlesValid(StopAll(s, l))
  {
    var r := StopAll(s, l);
    assert RootHandle !in HandlesOf(s.cancel, Elems(l)) by {
      forall k | k in Elems(l) ensures s.cancel[k] != RootHandle {
        assert k != Main;
      }
    }
  }

  // ---------------------------------------------------------------------------
  // Update

  /** What `Update(ks)` computes before acting: `toStart` lists the keys of
      `ks` that are not active, `toStop` the active keys not in `ks`. */
  predicate UpdatePre(s: State, ks: seq<string>, toStart: seq<string>, toStop: seq<string>)
  {
    && Enumerates(toStart, Elems(ks) - s.keys)
    && Enumerates(toStop, s.keys - Elems(ks))
    && s.keys <= s.cancel.Keys
  }

  /** `Update(ks)`: run the keys to start, stop the keys to stop, then make the
      set of `ks` the active set. */
  function Update(s: State, ks: seq<string>, toStart: seq<string>, toStop: seq<string>): State
    requires UpdatePre(s, ks, toStart, toStop)
  {
    StopAll(StartAll(s, toStart), toStop).(keys := Elems(ks))
  }

  /** `Update` as one record update of the state `run` leaves: the stopped
      keys' handles are the ones they had before the call. */
  lemma UpdateShape(s: State, ks: seq<string>, toStart: seq<string>, toStop: seq<string>)
    requires UpdatePre(s, ks, toStart, toStop)
    ensures var r1 := StartAll(s, toStart);
      Update(s, ks, toStart, toStop)
      == r1.(cancel := r1.cancel - Elems(toStop),
             cancelled := s.cancelled + HandlesOf(s.cancel, s.keys - Elems(ks)),
             keys := Elems(ks))
  {
    var r1 := StartAll(s, toStart);
    StartAllEntries(s, toStart);
    assert HandlesOf(r1.cancel, Elems(toStop)) == HandlesOf(s.cancel, s.keys - Elems(ks)) by {
      forall k | k in Elems(toStop) ensures k in s.cancel && k !in toStart {
        assert k !in Elems(toStart);
      }
    }
  }

  /** The keys of `ks` that were not active get a fresh entry whose handle is
      not cancelled unless the root is, and a goroutine with that handle. */
  lemma UpdateStarts(s: State, ks: seq<string>, toStart: seq<string>, toStop: seq<string>)
    requires Valid(s) && UpdatePre(s, ks, toStart, toStop)
    ensures var r := Update(s, ks, toStart, toStop);
      forall k :: k in Elems(ks) - s.keys ==>
        k in r.cancel && s.nextHandle <= r.cancel[k] && Task(k, r.cancel[k]) in r.tasks
        && r.cancel[k] !in r.cancelled
  {
    UpdateShape(s, ks, toStart, toStop);
    StartAllEntries(s, toStart);
    var r1 := StartAll(s, toStart);
    var r := Update(s, ks, toStart, toStop);
    forall k | k in Elems(ks) - s.keys
      ensures k in r.cancel && s.nextHandle <= r.cancel[k] && Task(k, r.cancel[k]) in r.tasks
      ensures r.cancel[k] !in r.cancelled
    {
      assert k in Elems(toStart) && k !in Elems(toStop);
      assert k in toStart;
      var h := r1.cancel[k];
      assert h !in HandlesOf(s.cancel, s.keys - Elems(ks));
    }
  }

  /** The active keys not in `ks` lose their entry and their handle is cancelled. */
  lemma UpdateStops(s: State, ks: seq<string>, toStart: seq<string>, toStop: seq<string>)
    requires Valid(s) && UpdatePre(s, ks, toStart, toStop)
    ensures var r := Update(s, ks, toStart, toStop);
      forall k :: k in s.keys - Elems(ks) ==> k !in r.cancel && IsCancelled(r, s.cancel[k])
  {
    UpdateShape(s, ks, toStart, toStop);
  }

  /** The entry of a key whose membership `ks` does not change (the root
      entry among them) stays as it was, and so does its cancellation. */
  lemma KeptHandleUnchanged(s: State, ks: seq<string>, toStart: seq<string>, toStop: seq<string>, k: string)
    requires Valid(s) && UpdatePre(s, ks, toStart, toStop)
    requires k in s.cancel && (k in Elems(ks) <==> k in s.keys)
    ensures var r := Update(s, ks, toStart, toStop);
      k in r.cancel && r.cancel[k] == s.cancel[k]
      && (IsCancelled(r, s.cancel[k]) <==> IsCancelled(s, s.cancel[k]))
  {
    UpdateShape(s, ks, toStart, toStop);
    StartAllEntries(s, toStart);
    assert k !in Elems(toStart) && k !in Elems(toStop);
    assert k !in toStart;
    assert s.cancel[k] !in HandlesOf(s.cancel, s.keys - Elems(ks)) by {
      forall k' | k' in s.keys - Elems(ks) ensures s.cancel[k'] != s.cancel[k] {
        assert k' != k;
      }
    }
  }

  /** The same for every such key. */
  lemma UpdateKeeps(s: State, ks: seq<string>, toStart: seq<string>, toStop: seq<string>)
    requires Valid(s) && UpdatePre(s, ks, toStart, toStop)
    ensures var r := Update(s, ks, toStart, toStop);
      forall k :: k in s.cancel && (k in Elems(ks) <==> k in s.keys) ==>
        k in r.cancel && r.cancel[k] == s.cancel[k]
        && (IsCancelled(r, s.cancel[k]) <==> IsCancelled(s, s.cancel[k]))
  {
    var r := Update(s, ks, toStart, toStop);
    forall k | k in s.cancel && (k in Elems(ks) <==> k in s.keys)
      ensures k in r.cancel && r.cancel[k] == s.cancel[k]
      ensures IsCancelled(r, s.cancel[k]) <==> IsCancelled(s, s.cancel[k])
    {
      KeptHandleUnchanged(s, ks, toStart, toStop, k);
    }
  }

  /** The goroutines after `Update` are the ones before and one per key started,
      holding that key's new handle. */
  lemma UpdateTasks(s: State, ks: seq<string>, toStart: seq<string>, toStop: seq<string>)
    requires Valid(s) && UpdatePre(s, ks, toStart, toStop)
    ensures var r := Update(s, ks, toStart, toStop);
      forall t :: t in r.tasks <==>
        t in s.tasks || (t.key in Elems(ks) - s.keys && t.key in r.cancel && t.handle == r.cancel[t.key])
  {
    UpdateShape(s, ks, toStart, toStop);
    StartAllEntries(s, toStart);
    StartAllHandles(s, toStart);
    StartAllTasks(s, toStart);
    var r1 := StartAll(s, toStart);
    var r := Update(s, ks, toStart, toStop);
    forall t
      ensures t in r.tasks <==>
        t in s.tasks || (t.key in Elems(ks) - s.keys && t.key in r.cancel && t.handle == r.cancel[t.key])
    {
      if t in r.tasks && t !in s.tasks {
        var i := t.handle - s.nextHandle;
        assert 0 <= i < |toStart| && t.key == toStart[i];
        assert r1.cancel[toStart[i]] == s.nextHandle + i;
        assert t.key in Elems(toStart);
        assert t.key !in Elems(toStop);
      }
      if t !in s.tasks && t.key in Elems(ks) - s.keys && t.key in r.cancel && t.handle == r.cancel[t.key] {
        assert t.key in toStart by { assert t.key in Elems(toStart); }
      }
    }
  }

  /** The effect of `Update(ks)` on every part of the state: the active set
      becomes exactly the keys of `ks`; exactly the keys of `ks` that were not
      active get a fresh entry whose handle is not cancelled, a goroutine
      and a start in the log; exactly the active keys not in `ks` have their
      handle cancelled and their entry deleted; every other entry, and whether
      it is cancelled, is unchanged. */
  lemma UpdateEffects(s: State, ks: seq<string>, toStart: seq<string>, toStop: seq<string>)
    requires Valid(s) && UpdatePre(s, ks, toStart, toStop)
    ensures var r := Update(s, ks, toStart, toStop);
      && r.keys == Elems(ks)
      && r.started == s.started + toStart
      && r.inflight == s.inflight + |Elems(ks) - s.keys|
      && r.rootCancelled == s.rootCancelled
      && r.cancelled == s.cancelled + HandlesOf(s.cancel, s.keys - Elems(ks))
      && (forall k :: k in Elems(ks) - s.keys ==>
            k in r.cancel && s.nextHandle <= r.cancel[k] && Task(k, r.cancel[k]) in r.tasks
            && r.cancel[k] !in r.cancelled)
      && (forall k :: k in s.keys - Elems(ks) ==> k !in r.cancel && IsCancelled(r, s.cancel[k]))
      && (forall k :: k in s.cancel && (k in Elems(ks) <==> k in s.keys) ==>
            k in r.cancel && r.cancel[k] == s.cancel[k]
            && (IsCancelled(r, s.cancel[k]) <==> IsCancelled(s, s.cancel[k])))
      && (forall t :: t in r.tasks <==>
            t in s.tasks || (t.key in Elems(ks) - s.keys && t.key in r.cancel && t.handle == r.cancel[t.key]))
  {
    EnumerationSize(toStart, Elems(ks) - s.keys);
    UpdateShape(s, ks, toStart, toStop);
    UpdateStarts(s, ks, toStart, toStop);
    UpdateStops(s, ks, toStart, toStop);
    UpdateKeeps(s, ks, toStart, toStop);
    UpdateTasks(s, ks, toStart, toStop);
  }

  /** `Update` keeps the invariant (for user keys). */
  lemma UpdateValid(s: State, ks: seq<string>, toStart: seq<string>, toStop: seq<string>)
    requires Valid(s) && Main !in ks && UpdatePre(s, ks, toStart, toStop)
    ensures Valid(Update(s, ks, toStart, toStop))
  {
    assert Main !in toStart by { assert Main !in Elems(toStart); }
    assert Main !in toStop by { assert Main !in Elems(toStop); }
    StartAllValid(s, toStart);
    var r1 := StartAll(s, toStart);
    StopAllHandlesValid(r1, toStop);
    UpdateEffects(s, ks, toStart, toStop);
    var r := Update(s, ks, toStart, toStop);
    forall k | k in r.keys ensures k in r.cancel && Task(k, r.cancel[k]) in r.tasks {
      if k in s.keys {
        assert Task(k, s.cancel[k]) in s.tasks;
      }
    }
  }

  /** Calling `Update` again with the same list finds nothing to start or stop
      and leaves the state as it was. */
  lemma UpdateIdempotent(s: State, ks: seq<string>, toStart: seq<string>, toStop: seq<string>,
                         toStart': seq<string>, toStop': seq<string>)
    requires UpdatePre(s, ks, toStart, toStop)
    requires UpdatePre(Update(s, ks, toStart, toStop), ks, toStart', toStop')
    ensures toStart' == [] && toStop' == []
    ensures Update(Update(s, ks, toStart, toStop), ks, toStart', toStop') == Update(s, ks, toStart, toStop)
  {
    var r := Update(s, ks, toStart, toStop);
    assert Elems(ks) - r.keys == {};
    assert r.keys - Elems(ks) == {};
    EnumerationOfEmpty(toStart');
    EnumerationOfEmpty(toStop');
    assert r.cancel - Elems(toStop') == r.cancel;
  }

  // ---------------------------------------------------------------------------
  // Add

  /** `Add(ks)` calls `Update` on the active keys listed by `strset.List()`
      followed by `ks`. */
  predicate AddPre(s: State, current: seq<string>, ks: seq<string>, toStart: seq<string>, toStop: seq<string>)
  {
    Enumerates(current, s.keys) && UpdatePre(s, current + ks, toStart, toStop)
  }

  function Add(s: State, current: seq<string>, ks: seq<string>, toStart: seq<string>, toStop: seq<string>): State
    requires AddPre(s, current, ks, toStart, toStop)
  {
    Update(s, current + ks, toStart, toStop)
  }

  /** The keys a union adds to a set are those the added part brings that were
      not there before: the set step of `AddEffects`. */
  lemma NewKeysOfUnion(active: set<string>, added: set<string>, all: set<string>)
    requires all == active + added
    ensures all - active == added - active
  {
  }

  /** `Add(ks)` makes the active set the union of the old one and `ks`, starts
      exactly the keys of `ks` that were not active and stops nothing. */
  lemma AddEffects(s: State, current: seq<string>, ks: seq<string>, toStart: seq<string>, toStop: seq<string>)
    requires Valid(s) && Main !in ks && AddPre(s, current, ks, toStart, toStop)
    ensures var r := Add(s, current, ks, toStart, toStop);
      && Valid(r)
      && r.keys == s.keys + Elems(ks)
      && toStop == [] && Elems(toStart) == Elems(ks) - s.keys
      && r.cancel.Keys == s.cancel.Keys + (Elems(ks) - s.keys)
      && r.started == s.started + toStart
      && r.inflight == s.inflight + |Elems(ks) - s.keys|
      && r.cancelled == s.cancelled && r.rootCancelled == s.rootCancelled
      && (forall k :: k in s.cancel && k !in Elems(ks) - s.keys ==> k in r.cancel && r.cancel[k] == s.cancel[k])
  {
    var all := current + ks;
    ElemsConcat(current, ks);
    assert s.keys - Elems(all) == {};
    EnumerationOfEmpty(toStop);
    assert Main !in all by {
      assert Main !in Elems(all);
    }
    var r := Add(s, current, ks, toStart, toStop);
    assert r == Update(s, all, toStart, toStop);
    UpdateValid(s, all, toStart, toStop);
    UpdateShape(s, all, toStart, toStop);
    StartAllEntries(s, toStart);
    assert Elems(toStop) == {};
    EnumerationSize(toStart, Elems(all) - s.keys);
    NewKeysOfUnion(s.keys, Elems(ks), Elems(all));
    forall k | k in s.cancel && k !in Elems(ks) - s.keys
      ensures k in r.cancel && r.cancel[k] == s.cancel[k]
    {
      assert k in Elems(all) <==> k in s.keys;
      KeptHandleUnchanged(s, all, toStart, toStop, k);
    }
  }

  // ---------------------------------------------------------------------------
  // StopKeys

  /** `StopKeys(ks)` calls each listed key's cancel function: the keys must be
      distinct and all in the table, or the source calls a nil function. */
  predicate StopKeysPre(s: State, ks: seq<string>)
  {
    Distinct(ks) && Elems(ks) <= s.cancel.Keys
  }

  function StopKeys(s: State, ks: seq<string>): State
    requires StopKeysPre(s, ks)
  {
    StopAll(s, ks).(keys := s.keys - Elems(ks))
  }

  /** `StopKeys(ks)` is surgical: the listed keys are cancelled, lose their
      entry and leave the active set; every other key keeps its membership, its
      entry and its cancellation status, and no goroutine is added or removed. */
  lemma StopKeysEffects(s: State, ks: seq<string>)
    requires Valid(s) && Main !in ks && StopKeysPre(s, ks)
    ensures var r := StopKeys(s, ks);
      && Valid(r)
      && (forall k :: k in ks ==> k !in r.keys && k !in r.cancel && IsCancelled(r, s.cancel[k]))
      && (forall k :: k !in ks ==> (k in r.keys <==> k in s.keys))
      && (forall k :: k in s.cancel && k !in ks ==>
            k in r.cancel && r.cancel[k] == s.cancel[k]
            && (IsCancelled(r, s.cancel[k]) <==> IsCancelled(s, s.cancel[k])))
      && r.tasks == s.tasks && r.inflight == s.inflight && r.started == s.started
      && r.rootCancelled == s.rootCancelled
  {
    var r := StopKeys(s, ks);
    StopAllHandlesValid(s, ks);
    forall k | k in ks ensures IsCancelled(r, s.cancel[k]) {
      assert k in Elems(ks);
    }
    forall k | k in s.cancel && k !in ks
      ensures k in r.cancel && r.cancel[k] == s.cancel[k]
      ensures IsCancelled(r, s.cancel[k]) <==> IsCancelled(s, s.cancel[k])
    {
      assert k !in Elems(ks);
      assert s.cancel[k] !in HandlesOf(s.cancel, Elems(ks)) by {
        forall k' | k' in Elems(ks) ensures s.cancel[k'] != s.cancel[k] {
          assert k' != k;
        }
      }
    }
  }

  // ---------------------------------------------------------------------------
  // Cancel

  /** `Cancel()` calls the root entry's cancel function. */
  function CancelAll(s: State): State
  {
    s.(rootCancelled := true)
  }

  /** After `Cancel()`, every goroutine's context and every handle in the table
      is done; the sets and the table are unchanged. */
  lemma CancelAllEffects(s: State)
    requires Valid(s)
    ensures var r := CancelAll(s);
      && Valid(r)
      && (forall t :: t in r.tasks ==> IsCancelled(r, t.handle))
      && (forall k :: k in r.cancel ==> IsCancelled(r, r.cancel[k]))
      && r.keys == s.keys && r.cancel == s.cancel && r.cancelled == s.cancelled
      && r.tasks == s.tasks && r.inflight == s.inflight
  {
  }

  // ---------------------------------------------------------------------------
  // Completion of a goroutine

  /** The end of a goroutine launched by `run`: `wg.Done()` then
      `keys.Remove(localKey)`. The table entry is left in place. */
  function Complete(s: State, t: Task): State
    requires t in s.tasks && 0 < s.inflight
  {
    s.(inflight := s.inflight - 1, keys := s.keys - {t.key}, tasks := s.tasks - {t})
  }

  lemma CompleteEffects(s: State, t: Task)
    requires Valid(s) && t in s.tasks
    ensures 0 < s.inflight
    ensures var r := Complete(s, t);
      && Valid(r)
      && r.keys == s.keys - {t.key} && r.inflight == s.inflight - 1
      && r.cancel == s.cancel && r.cancelled == s.cancelled
  {
    assert |s.tasks - {t}| == |s.tasks| - 1;
    var r := Complete(s, t);
    forall k | k in r.keys ensures Task(k, r.cancel[k]) in r.tasks {
      assert Task(k, s.cancel[k]) != t;
    }
  }

  /** After a goroutine for `k` has returned, a later `Update` that lists `k`
      starts it again with a fresh handle that overwrites the one left behind. */
  lemma RestartAfterComplete(s: State, t: Task, ks: seq<string>, toStart: seq<string>, toStop: seq<string>)
    requires Valid(s) && t in s.tasks && 0 < s.inflight && t.key in ks
    requires UpdatePre(Complete(s, t), ks, toStart, toStop)
    ensures var u := Update(Complete(s, t), ks, toStart, toStop);
      && t.key in Elems(toStart)
      && t.key in u.cancel && s.nextHandle <= u.cancel[t.key]
      && (t.key in s.cancel ==> u.cancel[t.key] != s.cancel[t.key])
      && Task(t.key, u.cancel[t.key]) in u.tasks
  {
    CompleteEffects(s, t);
    var c := Complete(s, t);
    assert c.nextHandle == s.nextHandle;
    assert t.key in Elems(ks) - c.keys;
    UpdateStarts(c, ks, toStart, toStop);
  }

  // ---------------------------------------------------------------------------
  // Wait

  /** `Wait()` returns once the wait-group counter is zero. */
  predicate Drained(s: State)
  {
    s.inflight == 0
  }

  /** The keys of the goroutines in a list. */
  function KeysOf(ts: seq<Task>): set<string>
  {
    set i | 0 <= i < |ts| :: ts[i].key
  }

  /** The goroutines in `order` return one after the other. */
  function CompleteAll(s: State, order: seq<Task>): (r: State)
    requires Distinct(order) && Elems(order) <= s.tasks && |order| <= s.inflight
    ensures r == s.(inflight := s.inflight - |order|, keys := s.keys - KeysOf(order),
                    tasks := s.tasks - Elems(order))
    decreases |order|
  {
    if order == [] then s
    else
      var n := |order| - 1;
      DistinctPrefix(order, n);
      assert order == order[..n] + [order[n]];
      assert KeysOf(order) == KeysOf(order[..n]) + {order[n].key} by {
        forall x | x in KeysOf(order) ensures x in KeysOf(order[..n]) + {order[n].key} {
          var i :| 0 <= i < |order| && order[i].key == x;
          if i < n { assert order[..n][i].key == x; }
        }
      }
      Complete(CompleteAll(s, order[..n]), order[n])
  }

  /** `CancelWait()`: once every goroutine has returned, in whatever order,
      the counter is zero, no goroutine is left, no key is active, and the
      table and the log are as they were. */
  lemma CancelWaitDrains(s: State, order: seq<Task>)
    requires Valid(s) && Enumerates(order, s.tasks)
    ensures |order| == s.inflight
    ensures var r := CompleteAll(CancelAll(s), order);
      && Valid(r) && Drained(r)
      && r.tasks == {} && r.keys == {} && r.rootCancelled
      && r.cancel == s.cancel && r.cancelled == s.cancelled && r.started == s.started
  {
    EnumerationSize(order, s.tasks);
    forall k | k in s.keys ensures k in KeysOf(order) {
      var t := Task(k, s.cancel[k]);
      assert t in Elems(order);
      var i :| 0 <= i < |order| && order[i] == t;
    }
  }

  /** In the model a goroutine's `wg.Done()` and its `keys.Remove` are one
      step, so once the counter is zero no goroutine is left and no key is
      active. In the source `Wait()` may return between the two statements,
      while keys are still to be removed. */
  lemma DrainedIsIdle(s: State)
    requires Valid(s) && Drained(s)
    ensures s.tasks == {} && s.keys == {}
  {
  }
}
