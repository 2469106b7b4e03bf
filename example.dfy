/**
 The scripted run of keygroup_test.go at the level of sets: `Add` of "1" to
 "5" on a new group, then `Update` to "1", "2", "4", "5", "6", then
 `StopKeys("2")` and `CancelWait()`, with the returns of the goroutines of
 "3" and "2" after they are stopped and of the rest after `CancelWait()`.
 The returns are the guarded ones of `Ownership.CompleteGuarded`; in this
 script each returning goroutine still holds its key's entry or has lost it
 together with its key, so they agree with the returns as written
 (`ExampleReturnsAgree` states it for the two early returns). The steps are
 proved for any six distinct user keys `k[0]` to `k[5]` in the roles of "1"
 to "6".
 */
module Example {
  import opened Seqs
  import opened KeyGroupState
  import opened Ownership

  /** Six distinct keys, none of them the root entry's. */
  predicate ScriptKeys(k: seq<string>)
  {
    |k| == 6 && Distinct(k) && Main !in k
  }

  lemma ScriptKeysOfExample()
    ensures ScriptKeys(["1", "2", "3", "4", "5", "6"])
  {
  }

  /** `Add("1", "2", "3", "4", "5")` on a group with no key starts the five keys. */
  lemma ExampleAdd(k: seq<string>, s: State, a: seq<string>, b: seq<string>)
    requires ScriptKeys(k) && Valid(s) && Owned(s) && s.keys == {}
    requires AddPre(s, [], [k[0], k[1], k[2], k[3], k[4]], a, b)
    ensures var r := Add(s, [], [k[0], k[1], k[2], k[3], k[4]], a, b);
      && Valid(r) && Owned(r) && r.keys == {k[0], k[1], k[2], k[3], k[4]} && r.inflight == s.inflight + 5
  {
    var first := [k[0], k[1], k[2], k[3], k[4]];
    assert first == k[..5];
    DistinctPrefix(k, 5);
    assert Elems(first) == {k[0], k[1], k[2], k[3], k[4]} by {
      assert first[0] == k[0] && first[1] == k[1] && first[2] == k[2] && first[3] == k[3] && first[4] == k[4];
    }
    assert Main !in first;
    EnumerationSize(first, Elems(first));
    AddEffects(s, [], first, a, b);
    AddOwned(s, [], first, a, b);
  }

  /** The `Update` of the script finds "3" alone to stop and "6" alone to
      start, and leaves the entry of "2" as it was. */
  lemma ExampleUpdate(k: seq<string>, s: State, toStart: seq<string>, toStop: seq<string>)
    requires ScriptKeys(k) && Valid(s) && Owned(s) && s.keys == {k[0], k[1], k[2], k[3], k[4]}
    requires UpdatePre(s, [k[0], k[1], k[3], k[4], k[5]], toStart, toStop)
    ensures toStart == [k[5]] && toStop == [k[2]]
    ensures var r := Update(s, [k[0], k[1], k[3], k[4], k[5]], toStart, toStop);
      && Valid(r) && Owned(r) && r.keys == {k[0], k[1], k[3], k[4], k[5]}
      && r.inflight == s.inflight + 1 && r.started == s.started + [k[5]]
      && k[2] !in r.cancel && IsCancelled(r, s.cancel[k[2]]) && Task(k[2], s.cancel[k[2]]) in r.tasks
      && k[1] in r.cancel && r.cancel[k[1]] == s.cancel[k[1]]
  {
    var second := [k[0], k[1], k[3], k[4], k[5]];
    assert Elems(second) == {k[0], k[1], k[3], k[4], k[5]} by {
      assert second[0] == k[0] && second[1] == k[1] && second[2] == k[3] && second[3] == k[4] && second[4] == k[5];
    }
    assert k[5] !in s.keys && k[2] !in Elems(second);
    assert Elems(second) - s.keys == {k[5]};
    assert s.keys - Elems(second) == {k[2]};
    EnumerationOfSingleton(toStart, k[5]);
    EnumerationOfSingleton(toStop, k[2]);
    assert Main !in second by {
      assert Main !in Elems(second);
    }
    UpdateValid(s, second, toStart, toStop);
    UpdateEffects(s, second, toStart, toStop);
    UpdateOwned(s, second, toStart, toStop);
    assert Task(k[2], s.cancel[k[2]]) in s.tasks;
  }

  /** The rest of the script after its `Update`. The goroutine of "3",
      cancelled by `Update`, returns; `StopKeys("2")` stops "2"; its
      goroutine returns too, leaving four keys active. */
  lemma ExampleStopAndReturn(k: seq<string>, s: State, h: HandleId)
    requires ScriptKeys(k) && Valid(s) && Owned(s) && s.keys == {k[0], k[1], k[3], k[4], k[5]}
    requires k[2] !in s.cancel && Task(k[2], h) in s.tasks
    ensures 0 < s.inflight
    ensures var s3 := CompleteGuarded(s, Task(k[2], h));
      && s3.keys == s.keys && s3.inflight == s.inflight - 1
      && StopKeysPre(s3, [k[1]])
      && var s4 := StopKeys(s3, [k[1]]);
      && k[1] !in s4.cancel && IsCancelled(s4, s.cancel[k[1]])
      && Task(k[1], s.cancel[k[1]]) in s4.tasks && 0 < s4.inflight
      && var s5 := CompleteGuarded(s4, Task(k[1], s.cancel[k[1]]));
      && Valid(s5) && Owned(s5)
      && s5.keys == {k[0], k[3], k[4], k[5]} && s5.inflight == s.inflight - 2
  {
    CompleteGuardedEffects(s, Task(k[2], h));
    var s3 := CompleteGuarded(s, Task(k[2], h));
    ExampleStopKeys(k, s3);
    var s4 := StopKeys(s3, [k[1]]);
    CompleteGuardedEffects(s4, Task(k[1], s.cancel[k[1]]));
  }

  /** The two early returns of the script are the same guarded or as written:
      the goroutine of "3" has lost its entry together with its key, and that
      of "2" returns after `StopKeys` has removed both. */
  lemma ExampleReturnsAgree(k: seq<string>, s: State, h: HandleId)
    requires ScriptKeys(k) && Valid(s) && Owned(s) && s.keys == {k[0], k[1], k[3], k[4], k[5]}
    requires k[2] !in s.cancel && Task(k[2], h) in s.tasks
    ensures 0 < s.inflight
    ensures CompleteGuarded(s, Task(k[2], h)) == Complete(s, Task(k[2], h))
    ensures var s3 := CompleteGuarded(s, Task(k[2], h));
      && StopKeysPre(s3, [k[1]])
      && var s4 := StopKeys(s3, [k[1]]);
      && Task(k[1], s.cancel[k[1]]) in s4.tasks && 0 < s4.inflight
      && CompleteGuarded(s4, Task(k[1], s.cancel[k[1]])) == Complete(s4, Task(k[1], s.cancel[k[1]]))
  {
    ExampleStopAndReturn(k, s, h);
    CompleteGuardedAgrees(s, Task(k[2], h));
    var s4 := StopKeys(CompleteGuarded(s, Task(k[2], h)), [k[1]]);
    CompleteGuardedAgrees(s4, Task(k[1], s.cancel[k[1]]));
  }

  /** `StopKeys("2")` with "2" holding an entry stops it and leaves the other
      keys active; the goroutine it cancelled is still running. */
  lemma ExampleStopKeys(k: seq<string>, s: State)
    requires ScriptKeys(k) && Valid(s) && Owned(s) && s.keys == {k[0], k[1], k[3], k[4], k[5]}
    ensures StopKeysPre(s, [k[1]])
    ensures var r := StopKeys(s, [k[1]]);
      && Valid(r) && Owned(r) && r.keys == {k[0], k[3], k[4], k[5]} && r.inflight == s.inflight
      && k[1] !in r.cancel && IsCancelled(r, s.cancel[k[1]])
      && Task(k[1], s.cancel[k[1]]) in r.tasks
  {
    assert [k[1]][0] == k[1];
    assert Elems([k[1]]) == {k[1]};
    StopKeysEffects(s, [k[1]]);
    StopKeysOwned(s, [k[1]]);
    assert Task(k[1], s.cancel[k[1]]) in s.tasks;
  }

  /** The whole script from a new group: `Add` starts five goroutines;
      `Update` stops "3" and starts "6"; the goroutine of "3" returns;
      `StopKeys("2")` stops "2" and its goroutine returns; four goroutines are
      left for "1", "4", "5", "6"; after `CancelWait()` they all return and no
      key is active. */
  lemma ExampleKeyGroup(k: seq<string>, a: seq<string>, b: seq<string>, c: seq<string>, d: seq<string>)
    requires ScriptKeys(k)
    requires AddPre(Init(false), [], [k[0], k[1], k[2], k[3], k[4]], a, b)
    requires UpdatePre(Add(Init(false), [], [k[0], k[1], k[2], k[3], k[4]], a, b),
                       [k[0], k[1], k[3], k[4], k[5]], c, d)
    ensures c == [k[5]] && d == [k[2]]
    ensures var s1 := Add(Init(false), [], [k[0], k[1], k[2], k[3], k[4]], a, b);
      var s2 := Update(s1, [k[0], k[1], k[3], k[4], k[5]], c, d);
      && s2.inflight == 6
      && k[2] in s1.cancel && Task(k[2], s1.cancel[k[2]]) in s2.tasks && 0 < s2.inflight
      && var s3 := CompleteGuarded(s2, Task(k[2], s1.cancel[k[2]]));
      && StopKeysPre(s3, [k[1]])
      && var s4 := StopKeys(s3, [k[1]]);
      && Task(k[1], s2.cancel[k[1]]) in s4.tasks && 0 < s4.inflight
      && var s5 := CompleteGuarded(s4, Task(k[1], s2.cancel[k[1]]));
      && Valid(s5) && s5.keys == {k[0], k[3], k[4], k[5]} && s5.inflight == 4
      && (forall order :: Enumerates(order, s5.tasks) ==>
            && |order| <= s5.inflight
            && var r := CompleteAllGuarded(CancelAll(s5), order);
            && Drained(r) && r.keys == {})
  {
    InitValid(false);
    InitOwned(false);
    ExampleAdd(k, Init(false), a, b);
    var s1 := Add(Init(false), [], [k[0], k[1], k[2], k[3], k[4]], a, b);
    ExampleUpdate(k, s1, c, d);
    var s2 := Update(s1, [k[0], k[1], k[3], k[4], k[5]], c, d);
    ExampleStopAndReturn(k, s2, s1.cancel[k[2]]);
    var s3 := CompleteGuarded(s2, Task(k[2], s1.cancel[k[2]]));
    var s5 := CompleteGuarded(StopKeys(s3, [k[1]]), Task(k[1], s2.cancel[k[1]]));
    forall order | Enumerates(order, s5.tasks)
      ensures |order| <= s5.inflight
      ensures Drained(CompleteAllGuarded(CancelAll(s5), order))
      ensures CompleteAllGuarded(CancelAll(s5), order).keys == {}
    {
      CancelWaitDrainsGuarded(s5, order);
    }
  }
}
