/** Kernel::ArbitrateAddress: user-space synchronisation on a 32-bit memory
    word. Signal resumes threads waiting on an address; the four wait types
    compare the word (optionally decremented first) with a value and put
    the caller in WAIT_ARB when it is not greater. */
module AddressArbiter {
  import opened Types
  import PS = PriorityScheduler
  import opened Kernel
  import TQ = ThreadQueueList

  /** ArbitrationType values as the system call passes them. */
  const SIGNAL: U32 := 0
  const WAIT_IF_LESS_THAN: U32 := 1
  const DECREMENT_AND_WAIT_IF_LESS_THAN: U32 := 2
  const WAIT_IF_LESS_THAN_WITH_TIMEOUT: U32 := 3
  const DECREMENT_AND_WAIT_IF_LESS_THAN_WITH_TIMEOUT: U32 := 4

  predicate KnownType(arbitrationType: U32) {
    arbitrationType <= DECREMENT_AND_WAIT_IF_LESS_THAN_WITH_TIMEOUT
  }

  predicate Decrements(arbitrationType: U32) {
    arbitrationType == DECREMENT_AND_WAIT_IF_LESS_THAN || arbitrationType == DECREMENT_AND_WAIT_IF_LESS_THAN_WITH_TIMEOUT
  }

  predicate HasTimeout(arbitrationType: U32) {
    arbitrationType == WAIT_IF_LESS_THAN_WITH_TIMEOUT || arbitrationType == DECREMENT_AND_WAIT_IF_LESS_THAN_WITH_TIMEOUT
  }

  /** The threads in WAIT_ARB on `address`. */
  function ArbWaitersIn(m: map<Tid, PS.ThreadState>, address: VAddr): set<Tid> {
    set u | u in m && PS.CheckWaitAddressArbiter(m[u], address)
  }

  function ArbWaiters(s: PS.Scheduler, address: VAddr): set<Tid> {
    ArbWaitersIn(s.threadData, address)
  }

  /** `after` extends `before` and schedules no wakeup. */
  predicate NoWakeupScheduled(before: seq<PS.Effect>, after: seq<PS.Effect>) {
    && before <= after
    && forall i :: |before| <= i < |after| ==> !after[i].WakeupScheduled?
  }

  /** `after` extends `before` and schedules some wakeup. */
  predicate WakeupScheduled(before: seq<PS.Effect>, after: seq<PS.Effect>) {
    exists i :: |before| <= i < |after| && after[i].WakeupScheduled?
  }

  lemma NoWakeupTrans(a: seq<PS.Effect>, b: seq<PS.Effect>, c: seq<PS.Effect>)
    requires NoWakeupScheduled(a, b) && NoWakeupScheduled(b, c)
    ensures NoWakeupScheduled(a, c)
  {
    forall i | |a| <= i < |c|
      ensures !c[i].WakeupScheduled?
    {
      if i < |b| {
        assert c[i] == b[i];
      }
    }
  }

  /** Resuming a thread cancels its wakeup and schedules none. */
  lemma ResumeSchedulesNoWakeup(s: PS.Scheduler, t: Tid)
    requires PS.Valid(s) && t in s.threadData
    ensures NoWakeupScheduled(s.effects, PS.ResumeFromWait(s, t).effects)
  {
    ResumeTailHasNoWakeup(s.effects, PS.ResumeFromWait(s, t).effects, t, PS.Resumable(s.threadData[t].status));
  }

  /** The entries ResumeFromWait logs: the cancelled wakeup and possibly a
      failed assertion, never a scheduled wakeup. */
  lemma ResumeTailHasNoWakeup(before: seq<PS.Effect>, after: seq<PS.Effect>, t: Tid, resumable: bool)
    requires after == before + [PS.WakeupCancelled(t)] + (if resumable then [] else [PS.AssertionFailed(t)])
    ensures NoWakeupScheduled(before, after)
  {
    forall i | |before| <= i < |after|
      ensures !after[i].WakeupScheduled?
    {
      assert after[i] == (if i == |before| then PS.WakeupCancelled(t) else PS.AssertionFailed(t));
    }
  }

  /** Making one waiter READY takes exactly that thread out of the
      address's waiters. */
  lemma ReadyLeavesWaiters(m2: map<Tid, PS.ThreadState>, m: map<Tid, PS.ThreadState>, t: Tid, address: VAddr)
    requires t in m && PS.Updated(m2, m, t, m[t].(status := Ready))
    ensures ArbWaitersIn(m2, address) == ArbWaitersIn(m, address) - {t}
  {
  }

  /** Resuming one waiter on the address takes exactly that thread out of
      the address's waiters and leaves every thread not waiting there as it
      was. */
  lemma HighestLeavesTheOthers(s: PS.Scheduler, address: VAddr)
    requires PS.Valid(s)
    ensures var (r, t) := PS.ArbitrateHighestPriorityThread(s, address);
              && (t.None? <==> ArbWaiters(s, address) == {})
              && (t.Some? ==> t.value in ArbWaiters(s, address) && ArbWaiters(r, address) == ArbWaiters(s, address) - {t.value})
              && (t.None? ==> r == s)
              && r.threadList == s.threadList && r.currentThread == s.currentThread && r.ticks == s.ticks
              && r.threadData.Keys == s.threadData.Keys
              && (forall u :: u in s.threadData && u !in ArbWaiters(s, address) ==> r.threadData[u] == s.threadData[u])
              && NoWakeupScheduled(s.effects, r.effects)
  {
    var (r, t) := PS.ArbitrateHighestPriorityThread(s, address);
    if t.None? {
      assert ArbWaiters(s, address) == {};
    } else {
      assert t.value in ArbWaiters(s, address);
      ResumeSchedulesNoWakeup(s, t.value);
      ReadyLeavesWaiters(r.threadData, s.threadData, t.value, address);
    }
  }

  /** What signalling n waiters on the address makes of `s`: min(n, W) of
      the W waiters resumed, best priority first, no thread that was not
      waiting changed, no priority changed and no wakeup scheduled. */
  predicate Signalled(s: PS.Scheduler, r: PS.Scheduler, address: VAddr, n: nat) {
    && r.threadData.Keys == s.threadData.Keys
    && ArbWaiters(r, address) <= ArbWaiters(s, address)
    && |ArbWaiters(r, address)| == (if n >= |ArbWaiters(s, address)| then 0 else |ArbWaiters(s, address)| - n)
    && (forall u :: u in s.threadData && u !in ArbWaiters(s, address) ==> r.threadData[u] == s.threadData[u])
    && NoWakeupScheduled(s.effects, r.effects)
    && r.ticks == s.ticks
    && SamePriorities(s.threadData, r.threadData)
    && ResumedBestFirst(s.threadData, r.threadData, address)
  }

  /** What one ArbitrateHighestPriorityThread that picked `t` makes of `s`:
      with no waiter nothing; otherwise t, a waiter of best priority, is
      no longer waiting and no other thread changes. */
  predicate ArbitratedOnce(s: PS.Scheduler, s': PS.Scheduler, address: VAddr, t: Option<Tid>) {
    && (t.None? ==> ArbWaiters(s, address) == {} && s' == s)
    && (t.Some? ==>
          && t.value in ArbWaiters(s, address)
          && ArbWaiters(s', address) == ArbWaiters(s, address) - {t.value}
          && (forall v :: v in ArbWaiters(s, address) ==> s.threadData[t.value].currentPriority <= s.threadData[v].currentPriority))
    && s'.threadData.Keys == s.threadData.Keys
    && (forall u :: u in s.threadData && u !in ArbWaiters(s, address) ==> s'.threadData[u] == s.threadData[u])
    && NoWakeupScheduled(s.effects, s'.effects)
    && s'.ticks == s.ticks
    && SamePriorities(s.threadData, s'.threadData)
  }

  /** ArbitrateHighestPriorityThread is one such step. */
  lemma HighestStep(s: PS.Scheduler, address: VAddr)
    requires PS.Valid(s)
    ensures ArbitratedOnce(s, PS.ArbitrateHighestPriorityThread(s, address).0, address, PS.ArbitrateHighestPriorityThread(s, address).1)
  {
    HighestLeavesTheOthers(s, address);
    HighestKeepsPriorities(s, address);
  }

  /** One arbitration step followed by a signal of n - 1 is a signal of n. */
  lemma SignalChain(s: PS.Scheduler, s': PS.Scheduler, r: PS.Scheduler, address: VAddr, n: nat, t: Option<Tid>)
    requires n > 0
    requires ArbitratedOnce(s, s', address, t)
    requires Signalled(s', r, address, n - 1)
    ensures Signalled(s, r, address, n)
  {
    NoWakeupTrans(s.effects, s'.effects, r.effects);
    SamePrioritiesTrans(s.threadData, s'.threadData, r.threadData);
    if t.Some? {
      BestFirstStep(s.threadData, s'.threadData, r.threadData, address, t.value);
      assert |ArbWaiters(s', address)| == |ArbWaiters(s, address)| - 1;
    }
  }

  /** `for (int i = 0; i < value; i++) ArbitrateHighestPriorityThread(address)`:
      n arbitrations resume min(n, W) of the W waiters, best priority first,
      and no thread that was not waiting on the address changes. */
  function SignalCount(s: PS.Scheduler, address: VAddr, n: nat): (r: PS.Scheduler)
    requires PS.Valid(s)
    ensures PS.Valid(r)
    ensures r.threadList == s.threadList && r.currentThread == s.currentThread
    ensures Signalled(s, r, address, n)
    decreases n
  {
    if n == 0 then s
    else
      var (s', t) := PS.ArbitrateHighestPriorityThread(s, address);
      HighestStep(s, address);
      var r := SignalCount(s', address, n - 1);
      SignalChain(s, s', r, address, n, t);
      r
  }

  /** Resuming a thread changes no thread's priority. */
  lemma HighestKeepsPriorities(s: PS.Scheduler, address: VAddr)
    requires PS.Valid(s)
    ensures SamePriorities(s.threadData, PS.ArbitrateHighestPriorityThread(s, address).0.threadData)
  {
  }

  /** Same priority for every thread of `m` in `m2`. */
  predicate SamePriorities(m: map<Tid, PS.ThreadState>, m2: map<Tid, PS.ThreadState>) {
    forall u :: u in m ==> u in m2 && m2[u].currentPriority == m[u].currentPriority
  }

  /** Every thread of `m` waiting on the address but not in `m2` has a
      priority (in `m`) at least as good as every thread still waiting in
      `m2`. */
  predicate ResumedBestFirst(m: map<Tid, PS.ThreadState>, m2: map<Tid, PS.ThreadState>, address: VAddr) {
    forall u, v :: u in ArbWaitersIn(m, address) && u !in ArbWaitersIn(m2, address) && v in ArbWaitersIn(m2, address) ==>
      u in m && v in m && m[u].currentPriority <= m[v].currentPriority
  }

  /** One best-priority waiter t taken out, then a best-first signal of the
      rest: the whole is best-first. */
  lemma BestFirstStep(m0: map<Tid, PS.ThreadState>, m1: map<Tid, PS.ThreadState>, m2: map<Tid, PS.ThreadState>,
                      address: VAddr, t: Tid)
    requires t in ArbWaitersIn(m0, address)
    requires ArbWaitersIn(m1, address) == ArbWaitersIn(m0, address) - {t}
    requires ArbWaitersIn(m2, address) <= ArbWaitersIn(m1, address)
    requires forall v :: v in ArbWaitersIn(m0, address) ==> m0[t].currentPriority <= m0[v].currentPriority
    requires SamePriorities(m0, m1)
    requires ResumedBestFirst(m1, m2, address)
    ensures ResumedBestFirst(m0, m2, address)
  {
    forall u, v | u in ArbWaitersIn(m0, address) && u !in ArbWaitersIn(m2, address) && v in ArbWaitersIn(m2, address)
      ensures u in m0 && v in m0 && m0[u].currentPriority <= m0[v].currentPriority
    {
      if u != t {
        assert u in ArbWaitersIn(m1, address);
      }
    }
  }

  lemma SamePrioritiesTrans(m0: map<Tid, PS.ThreadState>, m1: map<Tid, PS.ThreadState>, m2: map<Tid, PS.ThreadState>)
    requires SamePriorities(m0, m1) && SamePriorities(m1, m2)
    ensures SamePriorities(m0, m2)
  {
  }

  /** The log ArbitrateAllThreads adds holds only wakeup cancellations. */
  lemma {:induction false} CancellationsOnly(s: PS.Scheduler, address: VAddr, i: nat)
    requires PS.Registry(s) && i <= |s.threadList|
    ensures forall j :: 0 <= j < |PS.ArbCancellations(s, address, i)| ==> PS.ArbCancellations(s, address, i)[j].WakeupCancelled?
    decreases |s.threadList| - i
  {
    if i < |s.threadList| {
      CancellationsOnly(s, address, i + 1);
    }
  }

  /** Resuming every waiter from position i of thread_list on schedules no
      wakeup. */
  lemma ArbitrateAllSchedulesNoWakeup(s: PS.Scheduler, address: VAddr, i: nat)
    requires PS.Valid(s) && i <= |s.threadList|
    ensures NoWakeupScheduled(s.effects, PS.ArbitrateAllFrom(s, address, i).effects)
  {
    CancellationsOnly(s, address, i);
    CancellationsScheduleNothing(s.effects, PS.ArbCancellations(s, address, i));
  }

  /** After ArbitrateAllThreads no thread waits on the address, and the
      threads that did are exactly the ones made READY. */
  lemma ArbitrateAllEmptiesAddress(s: PS.Scheduler, address: VAddr)
    requires PS.Valid(s)
    ensures ArbWaiters(PS.ArbitrateAllThreads(s, address), address) == {}
    ensures forall u :: u in ArbWaiters(s, address) ==> PS.ArbitrateAllThreads(s, address).threadData[u].status == Ready
    ensures NoWakeupScheduled(s.effects, PS.ArbitrateAllThreads(s, address).effects)
  {
    var r := PS.ArbitrateAllThreads(s, address);
    assert forall u :: u in r.threadData ==> u in s.threadData by {
      forall u | u in r.threadData
        ensures u in s.threadData
      {
        var k :| 0 <= k < |r.threadList| && r.threadList[k] == u;
      }
    }
    AllWaitersReady(s.threadData, r.threadData, address);
    var extra := PS.ArbCancellations(s, address, 0);
    CancellationsOnly(s, address, 0);
    CancellationsScheduleNothing(s.effects, extra);
  }

  /** A thread map in which every waiter on the address was made READY and
      every other thread kept has no waiter on the address left. */
  lemma AllWaitersReady(m: map<Tid, PS.ThreadState>, m2: map<Tid, PS.ThreadState>, address: VAddr)
    requires forall u :: u in m2 ==> u in m
    requires forall u :: u in m ==>
               u in m2 && m2[u] == if PS.CheckWaitAddressArbiter(m[u], address) then m[u].(status := Ready) else m[u]
    ensures ArbWaitersIn(m2, address) == {}
    ensures forall u :: u in ArbWaitersIn(m, address) ==> m2[u].status == Ready
  {
    forall u | u in m2
      ensures !PS.CheckWaitAddressArbiter(m2[u], address)
    {
    }
  }

  /** Appending only wakeup cancellations schedules no wakeup. */
  lemma CancellationsScheduleNothing(before: seq<PS.Effect>, extra: seq<PS.Effect>)
    requires forall j :: 0 <= j < |extra| ==> extra[j].WakeupCancelled?
    ensures NoWakeupScheduled(before, before + extra)
  {
    forall i | |before| <= i < |before + extra|
      ensures !(before + extra)[i].WakeupScheduled?
    {
      assert (before + extra)[i] == extra[i - |before|];
    }
  }

  /** The comparison a wait type makes: the word (after the decrement, for
      the decrementing types) read as s32 is at most `value`. Despite the
      names, equality waits too. */
  predicate ShouldWaitOn(memory: map<VAddr, U32>, arbitrationType: U32, address: VAddr, value: int) {
    var word := if Decrements(arbitrationType) then Decrement(Read32(memory, address)) else Read32(memory, address);
    ToS32(word) <= value
  }

  /** The caller goes to WAIT_ARB on the address and reschedules; with a
      timeout, the wakeup is then scheduled for whichever thread is current
      after the reschedule. */
  function WaitOnAddress(s: PS.Scheduler, address: VAddr, timeout: bool, nanoseconds: nat): (r: PS.Scheduler)
    requires PS.Valid(s) && s.currentThread.Some? && nanoseconds < U64_LIMIT
    ensures PS.Valid(r) && r.currentThread.Some? && r.threadList == s.threadList
    ensures r.ticks == s.ticks + PS.RESCHEDULE_TICKS
    ensures !timeout || U64ToS64(nanoseconds) == -1 ==> PS.SwitchEffectsOnly(s.effects, r.effects)
    ensures timeout && U64ToS64(nanoseconds) != -1 ==>
              && |r.effects| > 0
              && PS.SwitchEffectsOnly(s.effects, r.effects[..|r.effects| - 1])
              && r.effects[|r.effects| - 1] == PS.WakeupScheduled(r.currentThread.value, PS.WakeupDelay(U64ToS64(nanoseconds)))
    ensures var c := s.currentThread.value;
              && (TQ.Flatten(s.readyQueue) == [] ==>
                    && r.currentThread == Some(c)
                    && PS.CheckWaitAddressArbiter(r.threadData[c], address))
              && (PS.CurrentIsRunning(s) && TQ.Flatten(s.readyQueue) != [] ==>
                    && r.currentThread == Some(TQ.Flatten(s.readyQueue)[0])
                    && r.threadData[c].status == Ready)
  {
    var s1 := PS.WaitCurrentThreadArbitrateAddress(s, address);
    if timeout then
      var r := PS.WakeThreadAfterDelay(s1, s1.currentThread.value, U64ToS64(nanoseconds));
      assert timeout && U64ToS64(nanoseconds) != -1 ==> r.effects[..|r.effects| - 1] == s1.effects;
      r
    else s1
  }

  /** Kernel::ArbitrateAddress. `value` is the s32 the caller compares
      with (or the number of threads to signal); `nanoseconds` is the u64
      timeout, read back as s64 when the wakeup is scheduled. */
  function ArbitrateAddress(k: System, handle: Handle, arbitrationType: U32, address: VAddr, value: int, nanoseconds: nat): (r: Reply)
    requires Valid(k) && S32_MIN <= value <= S32_MAX && nanoseconds < U64_LIMIT
    ensures Valid(r.system) && r.out.None?
    ensures r.system.table == k.table && r.system.busy == k.busy
    ensures !IsArbiter(k.table, handle) ==> r == Reply(k, InvalidHandle, None)
    ensures IsArbiter(k.table, handle) && !KnownType(arbitrationType) ==> r == Reply(k, InvalidEnumValue, None)
    ensures IsArbiter(k.table, handle) && KnownType(arbitrationType) ==> r.code == Success
    ensures !(IsArbiter(k.table, handle) && Decrements(arbitrationType)) ==> r.system.memory == k.memory
    ensures IsArbiter(k.table, handle) && Decrements(arbitrationType) ==>
              r.system.memory == Write32(k.memory, address, Decrement(Read32(k.memory, address)))
  {
    if !IsArbiter(k.table, handle) then Reply(k, InvalidHandle, None)
    else if !KnownType(arbitrationType) then Reply(k, InvalidEnumValue, None)
    else if arbitrationType == SIGNAL then
      var s := if value < 0 then PS.ArbitrateAllThreads(k.sched, address) else SignalCount(k.sched, address, value);
      Reply(WithScheduler(k, s), Success, None)
    else
      var memory := if Decrements(arbitrationType) then Write32(k.memory, address, Decrement(Read32(k.memory, address)))
                    else k.memory;
      var s := if ShouldWaitOn(k.memory, arbitrationType, address, value)
               then WaitOnAddress(k.sched, address, HasTimeout(arbitrationType), nanoseconds)
               else k.sched;
      Reply(WithScheduler(k, s).(memory := memory), Success, None)
  }

  /** Signal: a negative value resumes every waiter on the address; a count
      n resumes min(n, W) of the W waiters, best priority first. Memory is
      never written and no wakeup is scheduled. */
  lemma SignalResumes(k: System, handle: Handle, address: VAddr, value: int, nanoseconds: nat)
    requires Valid(k) && S32_MIN <= value <= S32_MAX && nanoseconds < U64_LIMIT && IsArbiter(k.table, handle)
    ensures var r := ArbitrateAddress(k, handle, SIGNAL, address, value, nanoseconds).system;
            var w := |ArbWaiters(k.sched, address)|;
              && r.memory == k.memory
              && (value < 0 ==> ArbWaiters(r.sched, address) == {})
              && (value >= 0 ==> |ArbWaiters(r.sched, address)| == if value >= w then 0 else w - value)
              && ArbWaiters(r.sched, address) <= ArbWaiters(k.sched, address)
              && (value >= 0 ==> ResumedBestFirst(k.sched.threadData, r.sched.threadData, address))
              && !WakeupScheduled(k.sched.effects, r.sched.effects)
  {
    var r := ArbitrateAddress(k, handle, SIGNAL, address, value, nanoseconds).system;
    if value < 0 {
      assert r.sched == PS.ArbitrateAllThreads(k.sched, address);
      ArbitrateAllEmptiesAddress(k.sched, address);
    } else {
      assert r.sched == SignalCount(k.sched, address, value);
    }
  }

  /** The four wait types put the caller to sleep (a reschedule, charged
      4000 ticks) exactly when the comparison holds; otherwise the scheduler
      is left alone. */
  lemma WaitsIffComparisonHolds(k: System, handle: Handle, arbitrationType: U32, address: VAddr, value: int, nanoseconds: nat)
    requires Valid(k) && S32_MIN <= value <= S32_MAX && nanoseconds < U64_LIMIT && IsArbiter(k.table, handle)
    requires KnownType(arbitrationType) && arbitrationType != SIGNAL
    ensures var r := ArbitrateAddress(k, handle, arbitrationType, address, value, nanoseconds).system;
              && (r.sched.ticks == k.sched.ticks + PS.RESCHEDULE_TICKS <==> ShouldWaitOn(k.memory, arbitrationType, address, value))
              && (!ShouldWaitOn(k.memory, arbitrationType, address, value) ==> r.sched == k.sched)
  {
  }

  lemma SwitchesScheduleNoWakeup(before: seq<PS.Effect>, after: seq<PS.Effect>)
    requires PS.SwitchEffectsOnly(before, after)
    ensures !WakeupScheduled(before, after)
  {
  }

  /** A wakeup is scheduled only by the two timeout types, only when the
      caller actually waits, and only for a timeout other than -1. */
  lemma WakeupIffTimedWait(k: System, handle: Handle, arbitrationType: U32, address: VAddr, value: int, nanoseconds: nat)
    requires Valid(k) && S32_MIN <= value <= S32_MAX && nanoseconds < U64_LIMIT
    ensures var r := ArbitrateAddress(k, handle, arbitrationType, address, value, nanoseconds).system;
              WakeupScheduled(k.sched.effects, r.sched.effects) <==>
                && IsArbiter(k.table, handle) && HasTimeout(arbitrationType)
                && ShouldWaitOn(k.memory, arbitrationType, address, value)
                && U64ToS64(nanoseconds) != -1
  {
    var r := ArbitrateAddress(k, handle, arbitrationType, address, value, nanoseconds).system;
    if !IsArbiter(k.table, handle) || !KnownType(arbitrationType) {
    } else if arbitrationType == SIGNAL {
      SignalResumes(k, handle, address, value, nanoseconds);
    } else if ShouldWaitOn(k.memory, arbitrationType, address, value) {
      var s := r.sched;
      if HasTimeout(arbitrationType) && U64ToS64(nanoseconds) != -1 {
        assert s.effects[|s.effects| - 1].WakeupScheduled?;
        assert |k.sched.effects| <= |s.effects[..|s.effects| - 1]|;
      } else {
        SwitchesScheduleNoWakeup(k.sched.effects, s.effects);
      }
    }
  }

  /** With nothing else ready, the caller stays current and waits in
      WAIT_ARB on the address. */
  lemma AloneWaitsOnAddress(k: System, handle: Handle, arbitrationType: U32, address: VAddr, value: int, nanoseconds: nat)
    requires Valid(k) && S32_MIN <= value <= S32_MAX && nanoseconds < U64_LIMIT && IsArbiter(k.table, handle)
    requires KnownType(arbitrationType) && arbitrationType != SIGNAL
    requires ShouldWaitOn(k.memory, arbitrationType, address, value)
    requires TQ.Flatten(k.sched.readyQueue) == []
    ensures var r := ArbitrateAddress(k, handle, arbitrationType, address, value, nanoseconds).system;
            var c := k.sched.currentThread.value;
              && r.sched.currentThread == Some(c)
              && PS.CheckWaitAddressArbiter(r.sched.threadData[c], address)
  {
  }

  /** As written, the timeout goes to the thread that is current after the
      reschedule: when another thread is ready, the caller is switched out
      (and, through SwitchContext, made READY again) and the wakeup is
      scheduled for the thread that took over. */
  lemma TimeoutGoesToNewCurrent(k: System, handle: Handle, arbitrationType: U32, address: VAddr, value: int, nanoseconds: nat)
    requires Valid(k) && S32_MIN <= value <= S32_MAX && nanoseconds < U64_LIMIT && IsArbiter(k.table, handle)
    requires HasTimeout(arbitrationType) && ShouldWaitOn(k.memory, arbitrationType, address, value)
    requires U64ToS64(nanoseconds) != -1
    requires PS.CurrentIsRunning(k.sched) && TQ.Flatten(k.sched.readyQueue) != []
    ensures var r := ArbitrateAddress(k, handle, arbitrationType, address, value, nanoseconds).system;
            var c := k.sched.currentThread.value;
            var other := TQ.Flatten(k.sched.readyQueue)[0];
              && other != c
              && r.sched.threadData[c].status == Ready
              && r.sched.effects[|r.sched.effects| - 1] == PS.WakeupScheduled(other, PS.WakeupDelay(U64ToS64(nanoseconds)))
  {
    FrontIsReady(k.sched);
  }

  /** The first queued thread is a READY thread. */
  lemma FrontIsReady(s: PS.Scheduler)
    requires PS.Valid(s) && TQ.Flatten(s.readyQueue) != []
    ensures TQ.Flatten(s.readyQueue)[0] in s.threadData
    ensures s.threadData[TQ.Flatten(s.readyQueue)[0]].status == Ready
  {
    var q := s.readyQueue;
    var other := TQ.Flatten(q)[0];
    TQ.InFlatten(q, other);
    var i :| 0 <= i < |q| && other in q[i];
    var j :| 0 <= j < |q[i]| && q[i][j] == other;
  }
}
