/** What one call of the tracker does when no other thread interferes. */
module AllocAlone {
  import opened Prelude
  import opened AllocTracker
  import opened AllocLedger

  /** A request of no bytes returns at once, any other goes to the system. */
  lemma CallBegins(s: State, t: nat, a: Action)
    requires Allowed(s, t, a) && s.threads[t].pc.Idle?
    requires a.CallMalloc? || a.CallCalloc? || (a.CallRealloc? && a.block.None?)
    ensures var s' := Step(s, t, a);
            if Requested(a) == 0 then s' == s
            else |s'.threads| == |s.threads| && s'.threads[t].pc == SystemAlloc && s' == s.(threads := s'.threads)
  {
  }

  /** The state after thread `t` has made some moves in turn. */
  function After(s: State, t: nat, acts: seq<Action>): State
    decreases |acts|
  {
    if acts == [] || t >= |s.threads| then s else After(Step(s, t, acts[0]), t, acts[1..])
  }

  lemma {:induction false} AfterConcat(s: State, t: nat, a: seq<Action>, b: seq<Action>)
    ensures After(s, t, a + b) == After(After(s, t, a), t, b)
    decreases |a|
  {
    if a == [] {
      assert a + b == b;
    } else if t < |s.threads| {
      assert (a + b)[1..] == a[1..] + b;
      AfterConcat(Step(s, t, a[0]), t, a[1..], b);
    }
  }

  lemma AfterFirst(s: State, t: nat, a: Action, rest: seq<Action>)
    requires t < |s.threads|
    ensures After(s, t, [a] + rest) == After(Step(s, t, a), t, rest)
  {
    assert ([a] + rest)[1..] == rest;
  }

  lemma AfterThree(s: State, t: nat, a: Action, b: Action, c: Action)
    requires t < |s.threads| && t < |Step(s, t, a).threads| && t < |Step(Step(s, t, a), t, b).threads|
    ensures After(s, t, [a, b, c]) == Step(Step(Step(s, t, a), t, b), t, c)
  {
    assert [a, b, c] == [a] + [b, c] && [b, c] == [b] + [c] && [c] == [c] + [];
    AfterFirst(s, t, a, [b, c]);
    AfterFirst(Step(s, t, a), t, b, [c]);
    AfterFirst(Step(Step(s, t, a), t, b), t, c, []);
  }

  /** The call, the grant and the count. */
  function Obtain(n: nat, p: Addr): seq<Action> { [CallMalloc(n), Granted(p), Tick] }
  /** The entry, the lock and the push. */
  const ENTER: seq<Action> := [EntryMade, Tick, Tick]
  /** The unlock and the two totals. */
  const CHARGE: seq<Action> := [Tick, Tick, Tick]
  /** The peak. */
  const PEAK: seq<Action> := [Tick, Tick, Tick]

  lemma Obtained(s: State, t: nat, n: nat, p: Addr)
    requires t < |s.threads| && s.threads[t].pc.Idle? && n > 0
    ensures var s' := After(s, t, Obtain(n, p));
            && |s'.threads| == |s.threads|
            && s' == s.(threads := s'.threads, live := s.live + {p}, stats := s.stats.(allocs := s.stats.allocs + 1))
            && var th := s'.threads[t];
               th.pc == NewEntry && th.call == Allocating && th.ptr == p && th.size == n
  {
    AfterThree(s, t, CallMalloc(n), Granted(p), Tick);
  }

  lemma Entered(s: State, t: nat)
    requires t < |s.threads| && s.lock == None && s.threads[t].pc == NewEntry && !s.threads[t].call.Restoring?
    ensures var s', th := After(s, t, ENTER), s.threads[t];
            && |s'.threads| == |s.threads|
            && s' == s.(threads := s'.threads, lock := Some(t), list := [Entry(th.ptr, th.size)] + s.list)
            && s'.threads[t] == th.(pc := UnlockAfterPush, entered := true)
  {
    AfterThree(s, t, EntryMade, Tick, Tick);
  }

  lemma Charged(s: State, t: nat)
    requires t < |s.threads| && s.threads[t].pc == UnlockAfterPush && s.threads[t].call == Allocating && s.threads[t].entered
    ensures var s', th := After(s, t, CHARGE), s.threads[t];
            && |s'.threads| == |s.threads|
            && s' == s.(threads := s'.threads, lock := None,
                        stats := s.stats.(totalAllocated := s.stats.totalAllocated + th.size, current := s.stats.current + th.size))
            && s'.threads[t] == th.(pc := LoadCurrent)
  {
    AfterThree(s, t, Tick, Tick, Tick);
  }

  lemma Peaked(s: State, t: nat)
    requires t < |s.threads| && s.threads[t].pc == LoadCurrent && s.threads[t].call == Allocating
    ensures var s', th := After(s, t, PEAK), s.threads[t];
            && |s'.threads| == |s.threads|
            && s' == s.(threads := s'.threads, held := s.held + {th.ptr},
                        stats := s.stats.(peak := if s.stats.current > s.stats.peak then s.stats.current else s.stats.peak))
            && s'.threads[t].pc == Idle
  {
    AfterThree(s, t, Tick, Tick, Tick);
  }

  /**
   * A `neoc_malloc` of `n > 0` bytes that runs without interference, and gets its memory, lists and holds the block,
   * raises count, total and usage by the request, and the peak to the new usage if that is higher.
   */
  lemma MallocAlone(s: State, t: nat, n: nat, p: Addr)
    requires t < |s.threads| && s.threads[t].pc.Idle? && s.lock == None && n > 0
    ensures var s' := After(s, t, Obtain(n, p) + ENTER + CHARGE + PEAK);
            var d, usage := s.stats, s.stats.current + n;
            && |s'.threads| == |s.threads| && s'.threads[t].pc == Idle
            && s' == s.(threads := s'.threads, list := [Entry(p, n)] + s.list, live := s.live + {p}, held := s.held + {p},
                        stats := Stats(d.totalAllocated + n, d.totalFreed, usage,
                                       if usage > d.peak then usage else d.peak, d.allocs + 1, d.frees))
  {
    AfterConcat(s, t, Obtain(n, p) + ENTER + CHARGE, PEAK);
    AfterConcat(s, t, Obtain(n, p) + ENTER, CHARGE);
    AfterConcat(s, t, Obtain(n, p), ENTER);
    Obtained(s, t, n, p);
    var s1 := After(s, t, Obtain(n, p));
    Entered(s1, t);
    var s2 := After(s1, t, ENTER);
    Charged(s2, t);
    Peaked(After(s2, t, CHARGE), t);
  }

  // ----- Releasing and resizing ---------------------------------------------------------------

  function Ticks(k: nat): seq<Action> { if k == 0 then [] else [Tick] + Ticks(k - 1) }

  /** `p` has its first entry at index `i`. */
  predicate ListedAt(list: seq<Entry>, p: Addr, i: nat) {
    i < |list| && list[i].ptr == p && forall j :: 0 <= j < i ==> list[j].ptr != p
  }

  lemma AfterTwo(s: State, t: nat, a: Action, b: Action)
    requires t < |s.threads| && t < |Step(s, t, a).threads|
    ensures After(s, t, [a, b]) == Step(Step(s, t, a), t, b)
  {
    assert [a, b] == [a] + [b] && [b] == [b] + [];
    AfterFirst(s, t, a, [b]);
    AfterFirst(Step(s, t, a), t, b, []);
  }

  /** The call and the lock. */
  lemma Released(s: State, t: nat, a: Action, p: Addr)
    requires t < |s.threads| && s.threads[t].pc.Idle? && s.lock == None
    requires a == CallFree(Some(p)) || (a.CallRealloc? && a.block == Some(p))
    ensures var s' := After(s, t, [a, Tick]);
            && |s'.threads| == |s.threads|
            && s' == s.(threads := s'.threads, lock := Some(t), held := s.held - {p})
            && var th := s'.threads[t];
               && th.pc == Walk(0) && th.ptr == p && !th.hadEntry
               && th.call == (if Requested(a) == 0 then Freeing else Resizing) && th.size == Requested(a)
  {
    AfterTwo(s, t, a, Tick);
  }

  /** The walk to the entry, and its removal. */
  lemma {:induction false} Walked(s: State, t: nat, j: nat, i: nat)
    requires t < |s.threads| && s.threads[t].pc == Walk(j) && j <= i && ListedAt(s.list, s.threads[t].ptr, i)
    ensures var s', th := After(s, t, Ticks(i - j + 2)), s.threads[t];
            && |s'.threads| == |s.threads|
            && s' == s.(threads := s'.threads, list := Without(s.list, i))
            && s'.threads[t] == th.(pc := UnlockAfterWalk, hadEntry := true, oldSize := s.list[i].size)
    decreases i - j
  {
    AfterFirst(s, t, Tick, Ticks(i - j + 1));
    if j < i {
      Walked(Step(s, t, Tick), t, j + 1, i);
    } else {
      assert Ticks(1) == [Tick] + [];
      AfterFirst(Step(s, t, Tick), t, Tick, []);
    }
  }

  const HAND_BACK: seq<Action> := [Tick, Tick, Tick]
  const DISCHARGE: seq<Action> := [Tick, Tick]

  /** The unlock, the return to the system and the count. */
  lemma HandedBack(s: State, t: nat)
    requires t < |s.threads| && s.threads[t].pc == UnlockAfterWalk && s.threads[t].call == Freeing && s.threads[t].hadEntry
    ensures var s', th := After(s, t, HAND_BACK), s.threads[t];
            && |s'.threads| == |s.threads|
            && s' == s.(threads := s'.threads, lock := None, live := s.live - {th.ptr},
                        stats := s.stats.(frees := s.stats.frees + 1))
            && s'.threads[t] == th.(pc := AddFreed)
  {
    AfterThree(s, t, Tick, Tick, Tick);
  }

  /** The two totals of a release. */
  lemma Discharged(s: State, t: nat)
    requires t < |s.threads| && s.threads[t].pc == AddFreed
    ensures var s', th := After(s, t, DISCHARGE), s.threads[t];
            && |s'.threads| == |s.threads|
            && s' == s.(threads := s'.threads, held := s.held + if th.call.Resizing? then {th.ptr} else {},
                        stats := s.stats.(totalFreed := s.stats.totalFreed + th.oldSize,
                                          current := s.stats.current - th.oldSize))
            && s'.threads[t].pc == Idle
  {
    AfterTwo(s, t, Tick, Tick);
  }

  /** The call, the walk to entry `i` and its removal. */
  function Untracking(a: Action, i: nat): seq<Action> { [a, Tick] + Ticks(i + 2) }

  lemma Untracked(s: State, t: nat, a: Action, p: Addr, i: nat)
    requires t < |s.threads| && s.threads[t].pc.Idle? && s.lock == None && ListedAt(s.list, p, i)
    requires a == CallFree(Some(p)) || (a.CallRealloc? && a.block == Some(p))
    ensures var s' := After(s, t, Untracking(a, i));
            && |s'.threads| == |s.threads|
            && s' == s.(threads := s'.threads, lock := Some(t), held := s.held - {p}, list := Without(s.list, i))
            && var th := s'.threads[t];
               && th.pc == UnlockAfterWalk && th.ptr == p && th.hadEntry && th.oldSize == s.list[i].size
               && th.call == (if Requested(a) == 0 then Freeing else Resizing) && th.size == Requested(a)
  {
    AfterConcat(s, t, [a, Tick], Ticks(i + 2));
    Released(s, t, a, p);
    Walked(After(s, t, [a, Tick]), t, 0, i);
  }

  /**
   * A `neoc_free` of a listed block that runs without interference removes its entry, gives it back, counts the
   * release and takes the entry's size off the usage.  So does a `neoc_realloc` to no bytes.
   */
  lemma FreeAlone(s: State, t: nat, a: Action, p: Addr, i: nat)
    requires t < |s.threads| && s.threads[t].pc.Idle? && s.lock == None && ListedAt(s.list, p, i)
    requires a == CallFree(Some(p)) || a == CallRealloc(Some(p), 0)
    ensures var s' := After(s, t, Untracking(a, i) + HAND_BACK + DISCHARGE);
            var d, size := s.stats, s.list[i].size;
            && |s'.threads| == |s.threads| && s'.threads[t].pc == Idle
            && s' == s.(threads := s'.threads, list := Without(s.list, i), live := s.live - {p}, held := s.held - {p},
                        stats := Stats(d.totalAllocated, d.totalFreed + size, d.current - size, d.peak,
                                       d.allocs, d.frees + 1))
  {
    AfterConcat(s, t, Untracking(a, i) + HAND_BACK, DISCHARGE);
    AfterConcat(s, t, Untracking(a, i), HAND_BACK);
    Untracked(s, t, a, p, i);
    var s1 := After(s, t, Untracking(a, i));
    HandedBack(s1, t);
    Discharged(After(s1, t, HAND_BACK), t);
  }

  lemma UnlockStep(s: State, t: nat)
    requires t < |s.threads| && s.threads[t].pc == UnlockAfterWalk && s.threads[t].call == Resizing
    ensures Step(s, t, Tick) == Put(s, t, s.threads[t].(pc := SystemRealloc)).(lock := None)
  {
  }

  lemma GrantStep(s: State, t: nat, q: Addr)
    requires t < |s.threads| && s.threads[t].pc == SystemRealloc
    ensures Step(s, t, Granted(q))
         == Put(s, t, s.threads[t].(pc := CountAlloc, ptr := q)).(live := s.live - {s.threads[t].ptr} + {q})
  {
  }

  lemma CountStep(s: State, t: nat)
    requires t < |s.threads| && s.threads[t].pc == CountAlloc && s.threads[t].hadEntry && s.threads[t].oldSize > 0
    ensures Step(s, t, Tick)
         == Put(s, t, s.threads[t].(pc := NewEntry)).(stats := s.stats.(allocs := s.stats.allocs + 1))
  {
  }

  /** The unlock, the system's new block and the count. */
  lemma Moved(s: State, t: nat, q: Addr)
    requires t < |s.threads| && s.threads[t].pc == UnlockAfterWalk && s.threads[t].call == Resizing
    requires s.threads[t].hadEntry && s.threads[t].oldSize > 0
    ensures var s', th := After(s, t, [Tick, Granted(q), Tick]), s.threads[t];
            && |s'.threads| == |s.threads|
            && s' == s.(threads := s'.threads, lock := None, live := s.live - {th.ptr} + {q},
                        stats := s.stats.(allocs := s.stats.allocs + 1))
            && s'.threads[t] == th.(pc := NewEntry, ptr := q)
  {
    UnlockStep(s, t);
    var s1 := Put(s, t, s.threads[t].(pc := SystemRealloc)).(lock := None);
    GrantStep(s1, t, q);
    CountStep(Step(s1, t, Granted(q)), t);
    AfterThree(s, t, Tick, Granted(q), Tick);
  }

  lemma TotalSteps(s: State, t: nat)
    requires t < |s.threads| && s.threads[t].pc == AddAllocated && s.threads[t].call == Resizing && s.threads[t].entered
    requires s.threads[t].hadEntry && s.threads[t].oldSize > 0
    ensures var s', th := After(s, t, [Tick, Tick]), s.threads[t];
            && |s'.threads| == |s.threads|
            && s' == s.(threads := s'.threads,
                        stats := s.stats.(totalAllocated := s.stats.totalAllocated + th.size, current := s.stats.current + th.size))
            && s'.threads[t] == th.(pc := CountFree)
  {
    AfterTwo(s, t, Tick, Tick);
  }

  /** The unlock and the two totals of a resized block. */
  lemma Recharged(s: State, t: nat)
    requires t < |s.threads| && s.threads[t].pc == UnlockAfterPush && s.threads[t].call == Resizing && s.threads[t].entered
    requires s.threads[t].hadEntry && s.threads[t].oldSize > 0
    ensures var s', th := After(s, t, CHARGE), s.threads[t];
            && |s'.threads| == |s.threads|
            && s' == s.(threads := s'.threads, lock := None,
                        stats := s.stats.(totalAllocated := s.stats.totalAllocated + th.size, current := s.stats.current + th.size))
            && s'.threads[t] == th.(pc := CountFree)
  {
    assert CHARGE == [Tick] + [Tick, Tick];
    AfterFirst(s, t, Tick, [Tick, Tick]);
    TotalSteps(Step(s, t, Tick), t);
  }

  /** The count and the two totals of the old block. */
  lemma OldDischarged(s: State, t: nat)
    requires t < |s.threads| && s.threads[t].pc == CountFree && s.threads[t].call == Resizing && s.threads[t].hadEntry
    ensures var s', th := After(s, t, [Tick, Tick, Tick]), s.threads[t];
            && |s'.threads| == |s.threads|
            && s' == s.(threads := s'.threads, held := s.held + {th.ptr},
                        stats := s.stats.(frees := s.stats.frees + 1, totalFreed := s.stats.totalFreed + th.oldSize,
                                          current := s.stats.current - th.oldSize))
            && s'.threads[t].pc == Idle
  {
    assert [Tick, Tick, Tick] == [Tick] + DISCHARGE;
    AfterFirst(s, t, Tick, DISCHARGE);
    Discharged(Step(s, t, Tick), t);
  }

  /** The call up to the push of the new block. */
  function Replacing(p: Addr, n: nat, i: nat, q: Addr): seq<Action> {
    Untracking(CallRealloc(Some(p), n), i) + [Tick, Granted(q), Tick] + ENTER
  }

  lemma Replaced(s: State, t: nat, p: Addr, n: nat, i: nat, q: Addr)
    requires t < |s.threads| && s.threads[t].pc.Idle? && s.lock == None && n > 0
    requires ListedAt(s.list, p, i) && s.list[i].size > 0
    ensures var s' := After(s, t, Replacing(p, n, i, q));
            && |s'.threads| == |s.threads|
            && s' == s.(threads := s'.threads, lock := Some(t), list := [Entry(q, n)] + Without(s.list, i),
                        live := s.live - {p} + {q}, held := s.held - {p}, stats := s.stats.(allocs := s.stats.allocs + 1))
            && var th := s'.threads[t];
               && th.pc == UnlockAfterPush && th.call == Resizing && th.ptr == q && th.size == n
               && th.entered && th.hadEntry && th.oldSize == s.list[i].size
  {
    var a := Untracking(CallRealloc(Some(p), n), i);
    AfterConcat(s, t, a + [Tick, Granted(q), Tick], ENTER);
    AfterConcat(s, t, a, [Tick, Granted(q), Tick]);
    Untracked(s, t, CallRealloc(Some(p), n), p, i);
    var s1 := After(s, t, a);
    Moved(s1, t, q);
    Entered(After(s1, t, [Tick, Granted(q), Tick]), t);
  }

  /**
   * A `neoc_realloc` of a listed block to `n > 0` bytes that runs without interference replaces the entry, counts one
   * allocation and one release, and changes the usage by the difference.  The peak stays as it was.
   */
  lemma ReallocAlone(s: State, t: nat, p: Addr, n: nat, i: nat, q: Addr)
    requires t < |s.threads| && s.threads[t].pc.Idle? && s.lock == None && n > 0
    requires ListedAt(s.list, p, i) && s.list[i].size > 0
    ensures var s' := After(s, t, Replacing(p, n, i, q) + CHARGE + [Tick, Tick, Tick]);
            var d, size := s.stats, s.list[i].size;
            && |s'.threads| == |s.threads| && s'.threads[t].pc == Idle
            && s' == s.(threads := s'.threads, list := [Entry(q, n)] + Without(s.list, i),
                        live := s.live - {p} + {q}, held := s.held - {p} + {q},
                        stats := Stats(d.totalAllocated + n, d.totalFreed + size, d.current + n - size, d.peak,
                                       d.allocs + 1, d.frees + 1))
  {
    AfterConcat(s, t, Replacing(p, n, i, q) + CHARGE, [Tick, Tick, Tick]);
    AfterConcat(s, t, Replacing(p, n, i, q), CHARGE);
    Replaced(s, t, p, n, i, q);
    var s1 := After(s, t, Replacing(p, n, i, q));
    Recharged(s1, t);
    OldDischarged(After(s1, t, CHARGE), t);
  }

  /**
   * The peak is not raised, so that it does not bound the usage any more exactly when the block grows by more than
   * was left below the peak.
   */
  lemma ReallocPassesPeak(s: State, t: nat, p: Addr, n: nat, i: nat, q: Addr)
    requires t < |s.threads| && s.threads[t].pc.Idle? && s.lock == None && n > 0
    requires ListedAt(s.list, p, i) && s.list[i].size > 0 && s.stats.current <= s.stats.peak
    ensures var s' := After(s, t, Replacing(p, n, i, q) + CHARGE + [Tick, Tick, Tick]);
            s'.stats.current > s'.stats.peak <==> n > s.list[i].size + (s.stats.peak - s.stats.current)
  {
    ReallocAlone(s, t, p, n, i, q);
  }

  /** The unlock, the system's refusal, and the entry made anew. */
  lemma Refusal(s: State, t: nat)
    requires t < |s.threads| && s.threads[t].pc == UnlockAfterWalk && s.threads[t].call == Resizing && s.threads[t].hadEntry
    ensures var s', th := After(s, t, [Tick, Refused, EntryMade]), s.threads[t];
            && |s'.threads| == |s.threads|
            && s' == s.(threads := s'.threads, lock := None)
            && s'.threads[t] == th.(pc := LockForPush, call := Restoring, size := th.oldSize)
  {
    AfterThree(s, t, Tick, Refused, EntryMade);
  }

  lemma Restored(s: State, t: nat)
    requires t < |s.threads| && s.threads[t].pc == LockForPush && s.threads[t].call == Restoring && s.lock == None
    ensures var s', th := After(s, t, [Tick, Tick, Tick]), s.threads[t];
            && |s'.threads| == |s.threads|
            && s' == s.(threads := s'.threads, list := [Entry(th.ptr, th.size)] + s.list, held := s.held + {th.ptr})
            && s'.threads[t].pc == Idle
  {
    AfterThree(s, t, Tick, Tick, Tick);
  }

  /** A `neoc_realloc` that the system refuses moves the block's entry to the head of the list and changes nothing else. */
  lemma RefusedReallocAlone(s: State, t: nat, p: Addr, n: nat, i: nat)
    requires t < |s.threads| && s.threads[t].pc.Idle? && s.lock == None && n > 0 && ListedAt(s.list, p, i) && p in s.held
    ensures var s' := After(s, t, Untracking(CallRealloc(Some(p), n), i) + [Tick, Refused, EntryMade] + [Tick, Tick, Tick]);
            && |s'.threads| == |s.threads| && s'.threads[t].pc == Idle
            && s' == s.(threads := s'.threads, list := [s.list[i]] + Without(s.list, i))
  {
    var a := Untracking(CallRealloc(Some(p), n), i);
    AfterConcat(s, t, a + [Tick, Refused, EntryMade], [Tick, Tick, Tick]);
    AfterConcat(s, t, a, [Tick, Refused, EntryMade]);
    Untracked(s, t, CallRealloc(Some(p), n), p, i);
    var s1 := After(s, t, a);
    Refusal(s1, t);
    Restored(After(s1, t, [Tick, Refused, EntryMade]), t);
    assert s.held - {p} + {p} == s.held;
  }
}
