/** The priority scheduler of the guest kernel: a registry of threads with
    per-thread scheduling state, one core with 64 FIFO ready buckets, and
    the transitions between RUNNING, READY, the three wait states, DORMANT
    and DEAD. The CPU engine, the timing queue and the kernel objects that
    are not shown are reached only through recorded effects. */
module PriorityScheduler {
  import opened Types
  import CommonFuncs
  import TQ = ThreadQueueList

  const THREADPRIO_HIGHEST: int := 0
  const THREADPRIO_DEFAULT: int := 16
  const THREADPRIO_LOW: int := 31
  const THREADPRIO_LOWEST: int := 63

  const THREADPROCESSORID_0: bv32 := 0xFFFF_FFFE
  const THREADPROCESSORID_1: bv32 := 0xFFFF_FFFD
  const THREADPROCESSORID_ALL: bv32 := 0xFFFF_FFFC

  /** CPU ticks charged by every reschedule to simulate HLE execution time. */
  const RESCHEDULE_TICKS: nat := 4000

  /** Scheduler-private bookkeeping for one thread. */
  datatype ThreadState = ThreadState(
    threadId: nat,
    status: Status,
    initialPriority: int,
    currentPriority: int,
    waitObjects: seq<ObjId>,
    waitAll: bool,
    waitSetOutput: bool,
    waitAddress: VAddr)

  /** Requests to the collaborators the scheduler drives but does not own:
      the timing queue, the CPU engine, mutexes and wait objects, and the
      result registers of a thread. */
  datatype Effect =
    | WakeupScheduled(thread: Tid, microseconds: nat)
    | WakeupCancelled(thread: Tid)
    | ContextSaved(thread: Tid)
    | ContextLoaded(thread: Tid)
    | MutexesReleased(thread: Tid)
    | ResultSet(thread: Tid, raw: bv32)
    | OutputSet(thread: Tid, output: int)
    | AssertionFailed(thread: Tid)
    | Acquired(obj: ObjId)

  /** The scheduler with its single application core. `waiters` is the
      waiter list of every wait object, keyed by object. */
  datatype Scheduler = Scheduler(
    threadList: seq<Tid>,
    threadData: map<Tid, ThreadState>,
    readyQueue: TQ.Queues,
    currentThread: Option<Tid>,
    nextThreadId: nat,
    ticks: nat,
    waiters: map<ObjId, set<Tid>>,
    effects: seq<Effect>)

  // ---------------------------------------------------------------------
  // Invariants

  predicate NoDuplicates(s: seq<Tid>) {
    forall i, j :: 0 <= i < j < |s| ==> s[i] != s[j]
  }

  predicate PriorityInRange(p: int) {
    THREADPRIO_HIGHEST <= p <= THREADPRIO_LOWEST
  }

  /** thread_list and thread_data describe the same threads, once each. */
  predicate Registry(s: Scheduler) {
    && NoDuplicates(s.threadList)
    && (forall i :: 0 <= i < |s.threadList| ==> s.threadList[i] in s.threadData)
    && (forall t :: t in s.threadData ==> t in s.threadList)
  }

  predicate PrioritiesInRange(s: Scheduler) {
    forall t :: t in s.threadData ==>
      PriorityInRange(s.threadData[t].currentPriority) && PriorityInRange(s.threadData[t].initialPriority)
  }

  /** Every queued entry is a READY thread sitting in the bucket of its
      current priority. */
  predicate QueuedAreReady(s: Scheduler) {
    forall p, k :: 0 <= p < |s.readyQueue| && 0 <= k < |s.readyQueue[p]| ==>
      && s.readyQueue[p][k] in s.threadData
      && s.threadData[s.readyQueue[p][k]].status == Ready
      && s.threadData[s.readyQueue[p][k]].currentPriority == p
  }

  /** Every READY thread other than `except` is in the bucket of its
      current priority. */
  predicate ReadyAreQueued(s: Scheduler, except: Option<Tid>) {
    forall t :: t in s.threadData && s.threadData[t].status == Ready && except != Some(t) ==>
      0 <= s.threadData[t].currentPriority < |s.readyQueue| &&
      t in s.readyQueue[s.threadData[t].currentPriority]
  }

  /** Only the core's current thread can be RUNNING. */
  predicate RunningIsCurrent(s: Scheduler) {
    forall t :: t in s.threadData && s.threadData[t].status == Running ==> s.currentThread == Some(t)
  }

  /** The scheduler invariant, except that one READY thread may be missing
      from the queue: the state between popping a thread and switching to it. */
  predicate ValidExcept(s: Scheduler, except: Option<Tid>) {
    && TQ.WellFormed(s.readyQueue)
    && Registry(s)
    && PrioritiesInRange(s)
    && QueuedAreReady(s)
    && ReadyAreQueued(s, except)
    && (s.currentThread.Some? ==> s.currentThread.value in s.threadData)
    && RunningIsCurrent(s)
    && s.nextThreadId < U32_LIMIT
  }

  predicate Valid(s: Scheduler) {
    ValidExcept(s, None)
  }

  /** The scheduler as constructed: no threads, no current thread, and the
      thread id counter at 1. */
  function Init(): (s: Scheduler)
    ensures Valid(s)
    ensures s.currentThread.None? && s.threadData == map[]
  {
    Scheduler([], map[], TQ.Empty(), None, 1, 0, map[], [])
  }

  /** `m2` is `m` with the entry of `t` set to `v`, stated entry by entry. */
  predicate Updated(m2: map<Tid, ThreadState>, m: map<Tid, ThreadState>, t: Tid, v: ThreadState) {
    && t in m2 && m2[t] == v
    && (forall u :: u in m2 ==> u in m || u == t)
    && (forall u :: u in m ==> u in m2)
    && (forall u :: u in m && u != t ==> m2[u] == m[u])
  }

  // ---------------------------------------------------------------------
  // Small pure pieces

  /** ClampPriority: a priority outside [HIGHEST, LOWEST] is moved to the
      nearer bound; one inside is kept. */
  function ClampPriority(p: int): (r: int)
    ensures PriorityInRange(r)
    ensures PriorityInRange(p) ==> r == p
    ensures p < THREADPRIO_HIGHEST ==> r == THREADPRIO_HIGHEST
    ensures p > THREADPRIO_LOWEST ==> r == THREADPRIO_LOWEST
  {
    if p < THREADPRIO_HIGHEST || p > THREADPRIO_LOWEST then
      CommonFuncs.Clamp(p, THREADPRIO_HIGHEST, THREADPRIO_LOWEST)
    else p
  }

  /** The probe mask after i turns of the core-selection loop: `mask`
      shifted left i times. */
  function ProbeMask(mask: bv32, i: nat): bv32
    decreases i
  {
    if i == 0 then mask else ProbeMask(mask << 1, i - 1)
  }

  /** The probe `~processor_id & core_mask` finds a clear processor-id bit. */
  predicate Clear(processorId: bv32, mask: bv32) {
    !processorId & mask != 0
  }

  /** The core-selection loop of ScheduleThread, probing one processor-id
      bit per registered core, lowest first: the first probed bit that is
      clear picks the core `~mask`; with none, THREADPROCESSORID_0. */
  function SelectCore(processorId: bv32, mask: bv32, coreCount: nat): (r: bv32)
    ensures r == THREADPROCESSORID_0 || ProbeClear(processorId, r)
    ensures coreCount == 0 ==> r == THREADPROCESSORID_0
    decreases coreCount
  {
    if coreCount == 0 then THREADPROCESSORID_0
    else if !processorId & mask != 0 then (assert !!mask == mask; !mask)
    else SelectCore(processorId, mask << 1, coreCount - 1)
  }

  /** The probe that picks `core` (whose mask is `~core`) found a clear
      processor-id bit: `~processor_id & core_mask != 0`. */
  predicate ProbeClear(processorId: bv32, core: bv32) {
    !processorId & !core != 0
  }

  /** The core a probe mask names: `cores[~core_mask]`. */
  function CoreOf(mask: bv32): bv32 {
    !mask
  }

  lemma SelectCoreHit(processorId: bv32, mask: bv32, coreCount: nat)
    requires coreCount > 0 && Clear(processorId, mask)
    ensures SelectCore(processorId, mask, coreCount) == CoreOf(mask)
  {
  }

  lemma SelectCoreMiss(processorId: bv32, mask: bv32, coreCount: nat)
    requires coreCount > 0 && !Clear(processorId, mask)
    ensures SelectCore(processorId, mask, coreCount) == SelectCore(processorId, mask << 1, coreCount - 1)
  {
  }

  lemma ProbeMaskNext(mask: bv32, next: bv32, i: nat)
    requires next == mask << 1
    ensures ProbeMask(mask, i + 1) == ProbeMask(next, i)
    ensures ProbeMask(mask, 0) == mask
  {
  }

  /** When probe i is the first of the loop to find a clear bit, the core
      chosen is the one that probe's mask names. */
  lemma {:induction false} SelectCorePicksFirstClear(processorId: bv32, mask: bv32, coreCount: nat, i: nat)
    requires i < coreCount
    requires Clear(processorId, ProbeMask(mask, i))
    requires forall j :: 0 <= j < i ==> !Clear(processorId, ProbeMask(mask, j))
    ensures SelectCore(processorId, mask, coreCount) == CoreOf(ProbeMask(mask, i))
    decreases i
  {
    var next := mask << 1;
    ProbeMaskNext(mask, next, 0);
    if i > 0 {
      ProbeMaskNext(mask, next, i - 1);
      forall j | 0 <= j < i - 1
        ensures !Clear(processorId, ProbeMask(next, j))
      {
        ProbeMaskNext(mask, next, j);
      }
      SelectCorePicksFirstClear(processorId, next, coreCount - 1, i - 1);
      SelectCoreMiss(processorId, mask, coreCount);
    } else {
      SelectCoreHit(processorId, mask, coreCount);
    }
  }

  /** When no probe of the loop finds a clear bit, the thread goes to
      THREADPROCESSORID_0. */
  lemma {:induction false} SelectCoreDefaultsToCore0(processorId: bv32, mask: bv32, coreCount: nat)
    requires forall i :: 0 <= i < coreCount ==> !Clear(processorId, ProbeMask(mask, i))
    ensures SelectCore(processorId, mask, coreCount) == THREADPROCESSORID_0
    decreases coreCount
  {
    if coreCount > 0 {
      var next := mask << 1;
      ProbeMaskNext(mask, next, 0);
      forall i | 0 <= i < coreCount - 1
        ensures !Clear(processorId, ProbeMask(next, i))
      {
        ProbeMaskNext(mask, next, i);
      }
      SelectCoreDefaultsToCore0(processorId, next, coreCount - 1);
      SelectCoreMiss(processorId, mask, coreCount);
    }
  }

  /** Two cores, probed from mask 1: a thread whose processor id has bit 0
      set and bit 1 clear goes to core 1 (`~2`); one with both bits set
      goes to core 0 by default. */
  lemma SelectCoreExamples()
    ensures SelectCore(0xFFFF_FFFD, 1, 2) == 0xFFFF_FFFD
    ensures SelectCore(3, 1, 2) == THREADPROCESSORID_0
    ensures SelectCore(0xFFFF_FFFE, 1, 2) == 0xFFFF_FFFE
  {
  }

  /** With only THREADPROCESSORID_0 registered (one probe, of bit 0), every
      thread lands on that core whatever its processor id asks for. */
  lemma SingleCoreSelectsCore0(processorId: bv32)
    ensures SelectCore(processorId, 1, 1) == THREADPROCESSORID_0
  {
  }

  /** The largest value a u32 counter holds before wrapping. */
  const U32_LIMIT: nat := 0x1_0000_0000

  /** NewThreadId: the counter's value, and the counter advanced with u32
      wrap-around. */
  function NewThreadId(counter: nat): (r: (nat, nat))
    requires counter < U32_LIMIT
    ensures r.0 == counter && r.1 < U32_LIMIT
    ensures counter + 1 < U32_LIMIT ==> r.1 == counter + 1
    ensures counter + 1 == U32_LIMIT ==> r.1 == 0
  {
    (counter, (counter + 1) % U32_LIMIT)
  }

  /** The ids handed out by n successive NewThreadId calls. */
  function ThreadIds(counter: nat, n: nat): (ids: seq<nat>)
    requires counter < U32_LIMIT
    ensures |ids| == n
    decreases n
  {
    if n == 0 then [] else [NewThreadId(counter).0] + ThreadIds(NewThreadId(counter).1, n - 1)
  }

  /** From any counter value, n successive ids are counter, counter + 1, ...
      as long as the counter does not wrap: distinct and strictly
      increasing (from the initial 1: 1, 2, 3, ...). */
  lemma {:induction false} ThreadIdsIncrease(counter: nat, n: nat)
    requires counter + n <= U32_LIMIT
    ensures forall i :: 0 <= i < n ==> ThreadIds(counter, n)[i] == counter + i
    ensures forall i, j :: 0 <= i < j < n ==> ThreadIds(counter, n)[i] < ThreadIds(counter, n)[j]
    decreases n
  {
    if n > 0 {
      var next := NewThreadId(counter).1;
      if n > 1 {
        assert next == counter + 1;
      }
      ThreadIdsIncrease(next, n - 1);
      var ids := ThreadIds(counter, n);
      assert ids == [counter] + ThreadIds(next, n - 1);
      forall i | 0 <= i < n
        ensures ids[i] == counter + i
      {
        if i > 0 {
          assert ids[i] == ThreadIds(next, n - 1)[i - 1];
        }
      }
    }
  }

  /** CheckWait_AddressArbiter. */
  predicate CheckWaitAddressArbiter(st: ThreadState, address: VAddr) {
    st.status == WaitArb && st.waitAddress == address
  }

  /** CheckWait_WaitObject. */
  predicate CheckWaitWaitObject(st: ThreadState, obj: ObjId) {
    st.status == WaitSync && obj in st.waitObjects
  }

  // ---------------------------------------------------------------------
  // MakeReady / MakeNotReady

  /** MakeReady: a RUNNING thread goes to the front of its bucket, any other
      to the back; either way it becomes READY. */
  function MakeReady(s: Scheduler, t: Tid): (r: Scheduler)
    requires TQ.WellFormed(s.readyQueue) && PrioritiesInRange(s) && t in s.threadData
    ensures t in r.threadData && r.threadData[t].status == Ready
    ensures Updated(r.threadData, s.threadData, t, s.threadData[t].(status := Ready))
    ensures var p := s.threadData[t].currentPriority;
              && TQ.WellFormed(r.readyQueue)
              && r.readyQueue[p] == (if s.threadData[t].status == Running then [t] + s.readyQueue[p] else s.readyQueue[p] + [t])
              && (forall i :: 0 <= i < TQ.NUM_QUEUES && i != p ==> r.readyQueue[i] == s.readyQueue[i])
    ensures r.threadList == s.threadList && r.currentThread == s.currentThread
    ensures r.waiters == s.waiters && r.effects == s.effects && r.ticks == s.ticks
    ensures r.nextThreadId == s.nextThreadId
    ensures forall x :: ValidExcept(s, x) ==> ValidExcept(r, if x == Some(t) then None else x)
  {
    var st := s.threadData[t];
    var q := if st.status == Running then TQ.PushFront(s.readyQueue, st.currentPriority, t)
             else TQ.PushBack(s.readyQueue, st.currentPriority, t);
    var r := s.(readyQueue := q, threadData := s.threadData[t := st.(status := Ready)]);
    MakeReadyKeepsInvariant(s, t, r);
    r
  }

  lemma MakeReadyKeepsInvariant(s: Scheduler, t: Tid, r: Scheduler)
    requires TQ.WellFormed(s.readyQueue) && PrioritiesInRange(s) && t in s.threadData
    requires var st := s.threadData[t];
             var p := st.currentPriority;
             && r == s.(readyQueue := r.readyQueue, threadData := s.threadData[t := st.(status := Ready)])
             && TQ.WellFormed(r.readyQueue)
             && r.readyQueue[p] == (if st.status == Running then [t] + s.readyQueue[p] else s.readyQueue[p] + [t])
             && (forall i :: 0 <= i < TQ.NUM_QUEUES && i != p ==> r.readyQueue[i] == s.readyQueue[i])
    ensures forall x :: ValidExcept(s, x) ==> ValidExcept(r, if x == Some(t) then None else x)
  {
    forall x | ValidExcept(s, x)
      ensures ValidExcept(r, if x == Some(t) then None else x)
    {
      MakeReadyQueued(s, t, r);
      assert Registry(r);
    }
  }

  lemma MakeReadyQueued(s: Scheduler, t: Tid, r: Scheduler)
    requires TQ.WellFormed(s.readyQueue) && PrioritiesInRange(s) && t in s.threadData && QueuedAreReady(s)
    requires var st := s.threadData[t];
             var p := st.currentPriority;
             && r == s.(readyQueue := r.readyQueue, threadData := s.threadData[t := st.(status := Ready)])
             && TQ.WellFormed(r.readyQueue)
             && r.readyQueue[p] == (if st.status == Running then [t] + s.readyQueue[p] else s.readyQueue[p] + [t])
             && (forall i :: 0 <= i < TQ.NUM_QUEUES && i != p ==> r.readyQueue[i] == s.readyQueue[i])
    ensures QueuedAreReady(r)
  {
    var p := s.threadData[t].currentPriority;
    forall i, k | 0 <= i < |r.readyQueue| && 0 <= k < |r.readyQueue[i]|
      ensures r.readyQueue[i][k] in r.threadData
      ensures r.threadData[r.readyQueue[i][k]].status == Ready
      ensures r.threadData[r.readyQueue[i][k]].currentPriority == i
    {
      if i == p && r.readyQueue[i][k] != t {
        if s.threadData[t].status == Running {
          assert r.readyQueue[i][k] == s.readyQueue[i][k - 1];
        } else {
          assert r.readyQueue[i][k] == s.readyQueue[i][k];
        }
      }
    }
  }


  /** MakeNotReady: a READY thread leaves its bucket; every thread takes the
      new, non-READY status. */
  function MakeNotReady(s: Scheduler, t: Tid, reason: Status): (r: Scheduler)
    requires TQ.WellFormed(s.readyQueue) && PrioritiesInRange(s) && t in s.threadData
    requires reason != Ready
    ensures t in r.threadData && r.threadData[t].status == reason
    ensures Updated(r.threadData, s.threadData, t, s.threadData[t].(status := reason))
    ensures TQ.WellFormed(r.readyQueue)
    ensures s.threadData[t].status != Ready ==> r.readyQueue == s.readyQueue
    ensures s.threadData[t].status == Ready ==>
              r.readyQueue == TQ.Remove(s.readyQueue, s.threadData[t].currentPriority, t)
    ensures r.threadList == s.threadList && r.currentThread == s.currentThread
    ensures r.waiters == s.waiters && r.effects == s.effects && r.ticks == s.ticks
    ensures r.nextThreadId == s.nextThreadId
    ensures forall x :: ValidExcept(s, x) && (reason == Running ==> s.currentThread == Some(t)) ==>
              ValidExcept(r, if x == Some(t) then None else x)
  {
    var st := s.threadData[t];
    var q := if st.status == Ready then TQ.Remove(s.readyQueue, st.currentPriority, t) else s.readyQueue;
    var r := s.(readyQueue := q, threadData := s.threadData[t := st.(status := reason)]);
    MakeNotReadyKeepsInvariant(s, t, reason, r);
    r
  }

  lemma MakeNotReadyKeepsInvariant(s: Scheduler, t: Tid, reason: Status, r: Scheduler)
    requires TQ.WellFormed(s.readyQueue) && PrioritiesInRange(s) && t in s.threadData && reason != Ready
    requires var st := s.threadData[t];
             && r == s.(readyQueue := r.readyQueue, threadData := s.threadData[t := st.(status := reason)])
             && r.readyQueue == (if st.status == Ready then TQ.Remove(s.readyQueue, st.currentPriority, t) else s.readyQueue)
    ensures forall x :: ValidExcept(s, x) && (reason == Running ==> s.currentThread == Some(t)) ==>
              ValidExcept(r, if x == Some(t) then None else x)
  {
    forall x | ValidExcept(s, x) && (reason == Running ==> s.currentThread == Some(t))
      ensures ValidExcept(r, if x == Some(t) then None else x)
    {
      MakeNotReadyQueued(s, t, reason, r, x);
      MakeNotReadyReady(s, t, reason, r, x);
      assert Registry(r);
    }
  }

  lemma MakeNotReadyQueued(s: Scheduler, t: Tid, reason: Status, r: Scheduler, x: Option<Tid>)
    requires ValidExcept(s, x) && t in s.threadData && reason != Ready
    requires var st := s.threadData[t];
             && r == s.(readyQueue := r.readyQueue, threadData := s.threadData[t := st.(status := reason)])
             && r.readyQueue == (if st.status == Ready then TQ.Remove(s.readyQueue, st.currentPriority, t) else s.readyQueue)
    ensures QueuedAreReady(r)
  {
    var p := s.threadData[t].currentPriority;
    forall i, k | 0 <= i < |r.readyQueue| && 0 <= k < |r.readyQueue[i]|
      ensures r.readyQueue[i][k] in r.threadData
      ensures r.threadData[r.readyQueue[i][k]].status == Ready
      ensures r.threadData[r.readyQueue[i][k]].currentPriority == i
    {
      var e := r.readyQueue[i][k];
      if i == p && s.threadData[t].status == Ready {
        assert e in s.readyQueue[i] && e != t;
      } else {
        assert e == s.readyQueue[i][k];
        assert e != t;
      }
    }
  }

  lemma MakeNotReadyReady(s: Scheduler, t: Tid, reason: Status, r: Scheduler, x: Option<Tid>)
    requires ValidExcept(s, x) && t in s.threadData && reason != Ready
    requires var st := s.threadData[t];
             && r == s.(readyQueue := r.readyQueue, threadData := s.threadData[t := st.(status := reason)])
             && r.readyQueue == (if st.status == Ready then TQ.Remove(s.readyQueue, st.currentPriority, t) else s.readyQueue)
    ensures ReadyAreQueued(r, if x == Some(t) then None else x)
  {
    var p := s.threadData[t].currentPriority;
    forall u | u in r.threadData && r.threadData[u].status == Ready && (if x == Some(t) then None else x) != Some(u)
      ensures 0 <= r.threadData[u].currentPriority < |r.readyQueue|
      ensures u in r.readyQueue[r.threadData[u].currentPriority]
    {
      assert u != t;
      var pu := s.threadData[u].currentPriority;
      assert u in s.readyQueue[pu];
      if pu == p && s.threadData[t].status == Ready {
        assert u in r.readyQueue[pu];
      }
    }
  }


  /** Two views of one thread that differ at most in their status. */
  predicate SameButStatus(a: ThreadState, b: ThreadState) {
    && a.threadId == b.threadId
    && a.initialPriority == b.initialPriority
    && a.currentPriority == b.currentPriority
    && a.waitObjects == b.waitObjects
    && a.waitAll == b.waitAll
    && a.waitSetOutput == b.waitSetOutput
    && a.waitAddress == b.waitAddress
  }

  // ---------------------------------------------------------------------
  // Choosing and switching to the next thread

  /** The core's current thread is still RUNNING (it has not just gone to
      wait, exited, or been made READY). */
  predicate CurrentIsRunning(s: Scheduler)
    requires s.currentThread.Some? ==> s.currentThread.value in s.threadData
  {
    s.currentThread.Some? && s.threadData[s.currentThread.value].status == Running
  }

  /** Taking the front of bucket i leaves the invariant intact except that
      the taken thread, still READY, is no longer queued. */
  lemma PopFrontKeepsInvariant(s: Scheduler, i: nat)
    requires Valid(s) && i < TQ.NUM_QUEUES && s.readyQueue[i] != []
    ensures ValidExcept(s.(readyQueue := s.readyQueue[i := s.readyQueue[i][1..]]), Some(s.readyQueue[i][0]))
  {
    var q := s.readyQueue;
    var r := s.(readyQueue := q[i := q[i][1..]]);
    forall p, k | 0 <= p < |r.readyQueue| && 0 <= k < |r.readyQueue[p]|
      ensures r.readyQueue[p][k] in r.threadData
      ensures r.threadData[r.readyQueue[p][k]].status == Ready
      ensures r.threadData[r.readyQueue[p][k]].currentPriority == p
    {
      if p == i {
        assert r.readyQueue[p][k] == q[p][k + 1];
      }
    }
    forall u | u in r.threadData && r.threadData[u].status == Ready && Some(q[i][0]) != Some(u)
      ensures u in r.readyQueue[r.threadData[u].currentPriority]
    {
      var pu := s.threadData[u].currentPriority;
      if pu == i {
        assert q[i] == [q[i][0]] + q[i][1..];
      }
    }
  }

  /** Every queued thread sits at priority p or worse exactly when the
      buckets better than p are all empty. */
  lemma NoBetterQueued(s: Scheduler, p: nat)
    requires Valid(s) && p <= TQ.NUM_QUEUES
    ensures (forall i :: 0 <= i < p ==> s.readyQueue[i] == []) <==>
            (forall u :: u in TQ.Flatten(s.readyQueue) ==> u in s.threadData && s.threadData[u].currentPriority >= p)
  {
    var q := s.readyQueue;
    if forall i :: 0 <= i < p ==> q[i] == [] {
      forall u | u in TQ.Flatten(q)
        ensures u in s.threadData && s.threadData[u].currentPriority >= p
      {
        TQ.InFlatten(q, u);
        var i :| 0 <= i < |q| && u in q[i];
        var k :| 0 <= k < |q[i]| && q[i][k] == u;
      }
    } else {
      var i :| 0 <= i < p && q[i] != [];
      TQ.InFlatten(q, q[i][0]);
      assert s.threadData[q[i][0]].currentPriority == i;
    }
  }

  /** PopNextReadyThread: while the current thread is still RUNNING only a
      strictly better thread displaces it; otherwise the first thread in
      service order is taken. */
  function PopNextReadyThread(s: Scheduler): (r: TQ.Popped)
    requires Valid(s)
    ensures TQ.WellFormed(r.queues)
    ensures r.entry.None? ==> r.queues == s.readyQueue
    ensures r.entry.Some? ==>
              && TQ.Flatten(s.readyQueue) != []
              && r.entry.value == TQ.Flatten(s.readyQueue)[0]
              && TQ.Flatten(r.queues) == TQ.Flatten(s.readyQueue)[1..]
              && r.entry.value in s.threadData
              && s.threadData[r.entry.value].status == Ready
              && ValidExcept(s.(readyQueue := r.queues), r.entry)
    ensures !CurrentIsRunning(s) ==> (r.entry.None? <==> TQ.Flatten(s.readyQueue) == [])
    ensures CurrentIsRunning(s) ==>
              var p := s.threadData[s.currentThread.value].currentPriority;
              && (r.entry.None? <==> forall u :: u in TQ.Flatten(s.readyQueue) ==> u in s.threadData && s.threadData[u].currentPriority >= p)
              && (r.entry.Some? ==> s.threadData[r.entry.value].currentPriority < p)
  {
    var r := if CurrentIsRunning(s) then TQ.PopFirstBetter(s.readyQueue, s.threadData[s.currentThread.value].currentPriority)
             else TQ.PopFirst(s.readyQueue);
    if CurrentIsRunning(s) then
      NoBetterQueued(s, s.threadData[s.currentThread.value].currentPriority);
      if r.entry.Some? then
        PopFrontKeepsInvariant(s, TQ.FirstNonEmpty(s.readyQueue, 0, s.threadData[s.currentThread.value].currentPriority).value);
        r
      else r
    else if r.entry.Some? then
      PopFrontKeepsInvariant(s, TQ.FirstNonEmpty(s.readyQueue, 0, TQ.NUM_QUEUES).value);
      r
    else r
  }

  /** SwitchContext to a thread just popped from the queue: the outgoing
      thread, whatever its status, is saved and made READY again; the
      incoming one becomes the core's RUNNING thread. */
  function SwitchContext(s: Scheduler, next: Tid): (r: Scheduler)
    requires ValidExcept(s, Some(next)) && next in s.threadData
    ensures Valid(r)
    ensures r.threadList == s.threadList
    ensures forall u :: u in r.threadData <==> u in s.threadData
    ensures r.currentThread == Some(next) && r.threadData[next].status == Running
    ensures s.currentThread.Some? && s.currentThread.value != next ==>
              r.threadData[s.currentThread.value].status == Ready
    ensures forall u :: u in s.threadData && Some(u) != s.currentThread && u != next ==> r.threadData[u] == s.threadData[u]
    ensures forall u :: u in s.threadData ==> SameButStatus(r.threadData[u], s.threadData[u])
    ensures r.effects == s.effects + (if s.currentThread.Some? then [ContextSaved(s.currentThread.value)] else []) + [ContextLoaded(next)]
    ensures r.waiters == s.waiters && r.ticks == s.ticks && r.nextThreadId == s.nextThreadId
  {
    var s1 := SaveOutgoing(s, next);
    var s2 := s1.(currentThread := Some(next), effects := s1.effects + [ContextLoaded(next)]);
    AdoptCurrent(s1, next, s2.effects);
    var r := MakeNotReady(s2, next, Running);
    StatusUpdatesCompose(s.threadData, s1.threadData, r.threadData, s.currentThread, next);
    r
  }

  /** Setting the status of at most two threads, one after the other,
      changes nothing else. */
  lemma StatusUpdatesCompose(m0: map<Tid, ThreadState>, m1: map<Tid, ThreadState>, m2: map<Tid, ThreadState>,
                             c: Option<Tid>, n: Tid)
    requires c.Some? ==> c.value in m0 && Updated(m1, m0, c.value, m0[c.value].(status := Ready))
    requires c.None? ==> m1 == m0
    requires n in m0 && n in m1 && Updated(m2, m1, n, m1[n].(status := Running))
    ensures forall u :: u in m2 <==> u in m0
    ensures forall u :: u in m0 && Some(u) != c && u != n ==> m2[u] == m0[u]
    ensures forall u :: u in m0 ==> SameButStatus(m2[u], m0[u])
  {
  }


  /** The first half of SwitchContext: the outgoing thread, if any, is saved
      and made READY, so no thread is RUNNING afterwards. */
  function SaveOutgoing(s: Scheduler, next: Tid): (r: Scheduler)
    requires ValidExcept(s, Some(next)) && next in s.threadData
    ensures ValidExcept(r, Some(next))
    ensures forall u :: u in r.threadData ==> r.threadData[u].status != Running
    ensures s.currentThread.Some? ==> Updated(r.threadData, s.threadData, s.currentThread.value, s.threadData[s.currentThread.value].(status := Ready))
    ensures s.currentThread.None? ==> r.threadData == s.threadData
    ensures r.currentThread == s.currentThread && r.threadList == s.threadList
    ensures r.effects == s.effects + (if s.currentThread.Some? then [ContextSaved(s.currentThread.value)] else [])
    ensures r.waiters == s.waiters && r.ticks == s.ticks && r.nextThreadId == s.nextThreadId
  {
    if s.currentThread.Some? then
      var c := s.currentThread.value;
      var s' := s.(effects := s.effects + [ContextSaved(c)]);
      LogKeepsInvariant(s, s'.effects, Some(next));
      var r := MakeReady(s', c);
      assert ValidExcept(r, Some(next)) by {
        if c == next {
          assert ValidExcept(r, None);
        }
      }
      r
    else s
  }

  /** `after` extends `before` by context saves and loads only: no wakeup
      is scheduled or cancelled and no result is written. */
  predicate SwitchEffectsOnly(before: seq<Effect>, after: seq<Effect>) {
    && before <= after
    && forall i :: |before| <= i < |after| ==> after[i].ContextSaved? || after[i].ContextLoaded?
  }

  lemma SwitchLogged(before: seq<Effect>, c: Option<Tid>, next: Tid)
    ensures SwitchEffectsOnly(before, before + (if c.Some? then [ContextSaved(c.value)] else []) + [ContextLoaded(next)])
  {
  }

  /** The invariant says nothing about the effect log, the waiter lists or
      the tick count. */
  lemma LogKeepsInvariant(s: Scheduler, effects: seq<Effect>, x: Option<Tid>)
    requires ValidExcept(s, x)
    ensures ValidExcept(s.(effects := effects), x)
  {
  }

  lemma TicksKeepInvariant(s: Scheduler, ticks: nat)
    requires Valid(s)
    ensures Valid(s.(ticks := ticks))
  {
  }

  lemma WaitersKeepInvariant(s: Scheduler, waiters: map<ObjId, set<Tid>>, x: Option<Tid>)
    requires ValidExcept(s, x)
    ensures ValidExcept(s.(waiters := waiters), x)
  {
  }

  /** Once no thread is RUNNING, any registered thread can be made the
      core's current thread without breaking the invariant. */
  lemma AdoptCurrent(s: Scheduler, next: Tid, effects: seq<Effect>)
    requires ValidExcept(s, Some(next)) && next in s.threadData
    requires forall u :: u in s.threadData ==> s.threadData[u].status != Running
    ensures ValidExcept(s.(currentThread := Some(next), effects := effects), Some(next))
  {
  }

  /** Reschedule: charge the HLE time, then switch to the thread
      PopNextReadyThread picks, if it picks one. */
  function Reschedule(s: Scheduler): (r: Scheduler)
    requires Valid(s)
    ensures Valid(r)
    ensures r.ticks == s.ticks + RESCHEDULE_TICKS
    ensures r.threadList == s.threadList
    ensures forall u :: u in r.threadData <==> u in s.threadData
    ensures r.waiters == s.waiters && r.nextThreadId == s.nextThreadId
    ensures SwitchEffectsOnly(s.effects, r.effects)
    ensures s.currentThread.Some? ==> r.currentThread.Some?
    ensures PopNextReadyThread(s).entry.None? ==> r == s.(ticks := s.ticks + RESCHEDULE_TICKS)
    ensures PopNextReadyThread(s).entry.Some? ==>
              var next := PopNextReadyThread(s).entry.value;
              && r.currentThread == Some(next) && r.threadData[next].status == Running
              && (s.currentThread.Some? && s.currentThread.value != next ==>
                    r.threadData[s.currentThread.value].status == Ready)
              && (forall u :: u in s.threadData && Some(u) != s.currentThread && u != next ==>
                    r.threadData[u] == s.threadData[u])
    ensures forall u :: u in s.threadData ==> SameButStatus(r.threadData[u], s.threadData[u])
  {
    var popped := PopNextReadyThread(s);
    match popped.entry
    case None => s.(ticks := s.ticks + RESCHEDULE_TICKS)
    case Some(next) =>
      var r := SwitchContext(s.(readyQueue := popped.queues), next);
      SwitchLogged(s.effects, s.currentThread, next);
      TicksKeepInvariant(r, r.ticks + RESCHEDULE_TICKS);
      r.(ticks := r.ticks + RESCHEDULE_TICKS)
  }


  // ---------------------------------------------------------------------
  // Waking threads

  /** RemoveWaitingThread on each object in turn: the thread leaves the
      waiter list of every object it was waiting on, and no other list
      changes. */
  function RemoveWaiter(waiters: map<ObjId, set<Tid>>, objects: seq<ObjId>, t: Tid): (r: map<ObjId, set<Tid>>)
    ensures r.Keys == waiters.Keys
    ensures forall o :: o in r ==> r[o] == if o in objects then waiters[o] - {t} else waiters[o]
    decreases |objects|
  {
    if objects == [] then waiters
    else
      var o := objects[0];
      var w := if o in waiters then waiters[o := waiters[o] - {t}] else waiters;
      assert forall o' :: o' in objects <==> o' == o || o' in objects[1..];
      RemoveWaiter(w, objects[1..], t)
  }

  /** The statuses ResumeFromWait expects; any other trips its debug
      assertion (and the thread is made READY all the same). */
  predicate Resumable(st: Status) {
    st == WaitSync || st == WaitArb || st == WaitSleep || st == Ready
  }

  /** ResumeFromWait: cancel the pending wakeup, leave every wait object's
      waiter list if waiting for synchronization, and make the thread
      READY, whatever it was doing. */
  function ResumeFromWait(s: Scheduler, t: Tid): (r: Scheduler)
    requires Valid(s) && t in s.threadData
    ensures Valid(r)
    ensures Updated(r.threadData, s.threadData, t, s.threadData[t].(status := Ready))
    ensures var p := s.threadData[t].currentPriority;
              && r.readyQueue[p] == (if s.threadData[t].status == Running then [t] + s.readyQueue[p] else s.readyQueue[p] + [t])
              && (forall i :: 0 <= i < TQ.NUM_QUEUES && i != p ==> r.readyQueue[i] == s.readyQueue[i])
    ensures s.threadData[t].status == WaitSync ==> r.waiters == RemoveWaiter(s.waiters, s.threadData[t].waitObjects, t)
    ensures s.threadData[t].status != WaitSync ==> r.waiters == s.waiters
    ensures r.effects == s.effects + [WakeupCancelled(t)] +
                         (if Resumable(s.threadData[t].status) then [] else [AssertionFailed(t)])
    ensures r.threadList == s.threadList && r.currentThread == s.currentThread
    ensures r.ticks == s.ticks && r.nextThreadId == s.nextThreadId
  {
    var st := s.threadData[t];
    var waiters := if st.status == WaitSync then RemoveWaiter(s.waiters, st.waitObjects, t) else s.waiters;
    var effects := s.effects + [WakeupCancelled(t)] + (if Resumable(st.status) then [] else [AssertionFailed(t)]);
    var s1 := s.(waiters := waiters, effects := effects);
    WaitersKeepInvariant(s, waiters, None);
    LogKeepsInvariant(s.(waiters := waiters), effects, None);
    MakeReady(s1, t)
  }

  /** u64 range of the microsecond count handed to the timing queue. */
  const U64_LIMIT: nat := 0x1_0000_0000_0000_0000

  /** Bounds of s64, the type of a nanosecond timeout. */
  const S64_MIN: int := -0x8000_0000_0000_0000
  const S64_MAX: int := 0x7FFF_FFFF_FFFF_FFFF

  /** C++ signed division: the quotient truncated toward zero. */
  function TruncDiv(a: int, b: nat): (q: int)
    requires b > 0
    ensures a >= 0 ==> q >= 0 && q * b <= a < q * b + b
    ensures a < 0 ==> q <= 0 && a <= q * b && q * b < a + b
  {
    if a >= 0 then a / b else -((-a) / b)
  }

  /** `u64 microseconds = nanoseconds / 1000`: truncating signed division,
      then the conversion of the s64 quotient to u64. */
  function WakeupDelay(nanoseconds: int): (us: nat)
    requires S64_MIN <= nanoseconds <= S64_MAX
    ensures us < U64_LIMIT
    ensures nanoseconds >= 0 ==> us * 1000 <= nanoseconds < us * 1000 + 1000
    ensures -1000 < nanoseconds < 0 ==> us == 0
    ensures nanoseconds <= -1000 ==> us >= U64_LIMIT + S64_MIN / 1000
    ensures nanoseconds < 0 ==> us == (U64_LIMIT - (-nanoseconds) / 1000) % U64_LIMIT
  {
    TruncDiv(nanoseconds, 1000) % U64_LIMIT
  }

  /** WakeThreadAfterDelay: -1 means "never"; any other timeout schedules
      the wakeup of the thread that many whole microseconds later. */
  function WakeThreadAfterDelay(s: Scheduler, t: Tid, nanoseconds: int): (r: Scheduler)
    requires S64_MIN <= nanoseconds <= S64_MAX
    ensures nanoseconds == -1 ==> r == s
    ensures nanoseconds != -1 ==>
              r == s.(effects := s.effects + [WakeupScheduled(t, WakeupDelay(nanoseconds))])
    ensures forall x :: ValidExcept(s, x) ==> ValidExcept(r, x)
  {
    if nanoseconds == -1 then s
    else s.(effects := s.effects + [WakeupScheduled(t, WakeupDelay(nanoseconds))])
  }

  // ---------------------------------------------------------------------
  // Priorities and registration

  /** GetPriority: the thread's current priority. */
  function GetPriority(s: Scheduler, t: Tid): (p: int)
    requires Valid(s) && t in s.threadData
    ensures PriorityInRange(p)
  {
    s.threadData[t].currentPriority
  }

  /** SetPriority: the clamped priority becomes current; a READY thread moves
      from the bucket of its old priority to the back of the new one. Asking
      for the priority the thread already has changes nothing, not even its
      place in the queue. */
  function SetPriority(s: Scheduler, t: Tid, priority: int): (r: Scheduler)
    requires Valid(s) && t in s.threadData
    ensures Valid(r)
    ensures Updated(r.threadData, s.threadData, t, s.threadData[t].(currentPriority := ClampPriority(priority)))
    ensures var old_p, new_p := s.threadData[t].currentPriority, ClampPriority(priority);
              && (old_p == new_p || s.threadData[t].status != Ready ==> r.readyQueue == s.readyQueue)
              && (old_p != new_p && s.threadData[t].status == Ready ==>
                    && t !in r.readyQueue[old_p]
                    && r.readyQueue[new_p] == s.readyQueue[new_p] + [t]
                    && (forall i :: 0 <= i < TQ.NUM_QUEUES && i != old_p && i != new_p ==> r.readyQueue[i] == s.readyQueue[i]))
    ensures var st := s.threadData[t];
              st.status == Ready && st.currentPriority != ClampPriority(priority) ==>
                r.readyQueue[st.currentPriority] == TQ.Erase(s.readyQueue[st.currentPriority], t)
    ensures r.threadList == s.threadList && r.currentThread == s.currentThread
    ensures r.waiters == s.waiters && r.effects == s.effects && r.ticks == s.ticks
    ensures r.nextThreadId == s.nextThreadId
  {
    var p := ClampPriority(priority);
    var st := s.threadData[t];
    if st.currentPriority == p then
      assert s.threadData[t := st.(currentPriority := p)] == s.threadData;
      s
    else
      var q := if st.status == Ready then TQ.PushBack(TQ.Remove(s.readyQueue, st.currentPriority, t), p, t)
               else s.readyQueue;
      var r := s.(readyQueue := q, threadData := s.threadData[t := st.(currentPriority := p)]);
      SetPriorityKeepsInvariant(s, t, p, r);
      r
  }

  lemma SetPriorityKeepsInvariant(s: Scheduler, t: Tid, p: int, r: Scheduler)
    requires Valid(s) && t in s.threadData && PriorityInRange(p) && p != s.threadData[t].currentPriority
    requires var st := s.threadData[t];
             && r == s.(readyQueue := r.readyQueue, threadData := s.threadData[t := st.(currentPriority := p)])
             && r.readyQueue == (if st.status == Ready then TQ.PushBack(TQ.Remove(s.readyQueue, st.currentPriority, t), p, t)
                                 else s.readyQueue)
    ensures Valid(r)
  {
    SetPriorityQueued(s, t, p, r);
    SetPriorityReady(s, t, p, r);
    assert Registry(r);
  }

  lemma SetPriorityQueued(s: Scheduler, t: Tid, p: int, r: Scheduler)
    requires Valid(s) && t in s.threadData && PriorityInRange(p) && p != s.threadData[t].currentPriority
    requires var st := s.threadData[t];
             && r == s.(readyQueue := r.readyQueue, threadData := s.threadData[t := st.(currentPriority := p)])
             && r.readyQueue == (if st.status == Ready then TQ.PushBack(TQ.Remove(s.readyQueue, st.currentPriority, t), p, t)
                                 else s.readyQueue)
    ensures QueuedAreReady(r)
  {
    var st := s.threadData[t];
    var q := s.readyQueue;
    var old_p := st.currentPriority;
    forall i, k | 0 <= i < |r.readyQueue| && 0 <= k < |r.readyQueue[i]|
      ensures r.readyQueue[i][k] in r.threadData
      ensures r.threadData[r.readyQueue[i][k]].status == Ready
      ensures r.threadData[r.readyQueue[i][k]].currentPriority == i
    {
      var e := r.readyQueue[i][k];
      if st.status == Ready {
        var q1 := TQ.Remove(q, old_p, t);
        if i == p {
          if k < |q1[i]| {
            assert e == q[i][k];
            assert e != t;
          }
        } else if i == old_p {
          assert e in q[i] && e != t;
        } else {
          assert e == q[i][k];
        }
      } else {
        assert e == q[i][k];
        assert e != t;
      }
    }
  }

  lemma SetPriorityReady(s: Scheduler, t: Tid, p: int, r: Scheduler)
    requires Valid(s) && t in s.threadData && PriorityInRange(p) && p != s.threadData[t].currentPriority
    requires var st := s.threadData[t];
             && r == s.(readyQueue := r.readyQueue, threadData := s.threadData[t := st.(currentPriority := p)])
             && r.readyQueue == (if st.status == Ready then TQ.PushBack(TQ.Remove(s.readyQueue, st.currentPriority, t), p, t)
                                 else s.readyQueue)
    ensures ReadyAreQueued(r, None)
  {
    var st := s.threadData[t];
    var q := s.readyQueue;
    forall u | u in r.threadData && r.threadData[u].status == Ready
      ensures 0 <= r.threadData[u].currentPriority < |r.readyQueue|
      ensures u in r.readyQueue[r.threadData[u].currentPriority]
    {
      if u != t {
        var pu := s.threadData[u].currentPriority;
        assert u in q[pu];
        if st.status == Ready {
          var q1 := TQ.Remove(q, st.currentPriority, t);
          assert u in q1[pu];
        }
      }
    }
  }


  /** ScheduleThread: register a new thread at the clamped priority, hand it
      the next thread id, and queue it READY at the back of its bucket. The
      core is not recorded: only the application core exists. */
  function ScheduleThread(s: Scheduler, t: Tid, priority: int): (r: Scheduler)
    requires Valid(s) && t !in s.threadData
    ensures Valid(r)
    ensures r.threadList == s.threadList + [t]
    ensures forall u :: u in s.threadData ==> u in r.threadData && r.threadData[u] == s.threadData[u]
    ensures t in r.threadData
    ensures var st := r.threadData[t];
              && st.status == Ready
              && st.threadId == s.nextThreadId
              && st.initialPriority == ClampPriority(priority)
              && st.currentPriority == ClampPriority(priority)
              && st.waitObjects == [] && st.waitAddress == 0
    ensures r.readyQueue[ClampPriority(priority)] == s.readyQueue[ClampPriority(priority)] + [t]
    ensures forall i :: 0 <= i < TQ.NUM_QUEUES && i != ClampPriority(priority) ==> r.readyQueue[i] == s.readyQueue[i]
    ensures r.nextThreadId == NewThreadId(s.nextThreadId).1
    ensures r.currentThread == s.currentThread && r.waiters == s.waiters
    ensures r.effects == s.effects && r.ticks == s.ticks
  {
    var p := ClampPriority(priority);
    var ids := NewThreadId(s.nextThreadId);
    var st := ThreadState(ids.0, Dormant, p, p, [], false, false, 0);
    var s1 := s.(threadList := s.threadList + [t], threadData := s.threadData[t := st], nextThreadId := ids.1);
    RegisterKeepsInvariant(s, t, st, s1);
    MakeReady(s1, t)
  }


  lemma RegisterKeepsInvariant(s: Scheduler, t: Tid, st: ThreadState, r: Scheduler)
    requires Valid(s) && t !in s.threadData
    requires st.status == Dormant && PriorityInRange(st.currentPriority) && PriorityInRange(st.initialPriority)
    requires r.readyQueue == s.readyQueue && r.currentThread == s.currentThread && r.nextThreadId < U32_LIMIT
    requires r.threadList == s.threadList + [t] && r.threadData == s.threadData[t := st]
    ensures Valid(r)
  {
    assert t !in s.threadList;
    forall i, j | 0 <= i < j < |r.threadList|
      ensures r.threadList[i] != r.threadList[j]
    {
      if j == |s.threadList| {
        assert r.threadList[i] == s.threadList[i];
      }
    }
    forall u | u in r.threadData
      ensures u in r.threadList
    {
      if u != t {
        assert u in s.threadList;
      }
    }
    forall i, k | 0 <= i < |r.readyQueue| && 0 <= k < |r.readyQueue[i]|
      ensures r.readyQueue[i][k] != t
    {
      assert r.readyQueue[i][k] in s.threadData;
    }
  }

  // ---------------------------------------------------------------------
  // Blocking and exiting the current thread

  /** The current thread's wait record is replaced (the status and the
      priorities stay), it takes the non-READY status `reason`, and the core
      reschedules. Shared by the three waits and by exit.

      Whenever any thread is queued, the reschedule switches to it and
      SwitchContext makes the outgoing thread READY again: the blocked (or
      dead) thread goes back in the queue instead of staying blocked. */
  function BlockCurrent(s: Scheduler, reason: Status, record: ThreadState): (r: Scheduler)
    requires Valid(s) && s.currentThread.Some? && reason != Ready && reason != Running
    requires SameButWaitRecord(record, s.threadData[s.currentThread.value])
    ensures Valid(r)
    ensures r.ticks == s.ticks + RESCHEDULE_TICKS
    ensures r.threadList == s.threadList && r.waiters == s.waiters && r.nextThreadId == s.nextThreadId
    ensures SwitchEffectsOnly(s.effects, r.effects)
    ensures r.currentThread.Some?
    ensures TQ.Flatten(s.readyQueue) == [] ==> r.readyQueue == s.readyQueue
    ensures var c := s.currentThread.value;
              c in r.threadData && SameButStatus(r.threadData[c], record)
    ensures var c := s.currentThread.value;
              && (TQ.Flatten(s.readyQueue) == [] ==>
                    r.currentThread == Some(c) && r.threadData[c] == record.(status := reason))
              && (CurrentIsRunning(s) && TQ.Flatten(s.readyQueue) != [] ==>
                    && r.currentThread == Some(TQ.Flatten(s.readyQueue)[0])
                    && r.threadData[c].status == Ready
                    && SameButStatus(r.threadData[c], record))
  {
    var c := s.currentThread.value;
    var s1 := s.(threadData := s.threadData[c := record]);
    WaitRecordKeepsInvariant(s, c, record);
    var s2 := MakeNotReady(s1, c, reason);
    BlockedQueueUnchanged(s, c, record, s2.readyQueue);
    var r := Reschedule(s2);
    RescheduleAfterBlock(s2, c);
    r
  }

  /** Blocking a RUNNING thread, or any thread while the queue is empty,
      leaves the queue as it was. */
  lemma BlockedQueueUnchanged(s: Scheduler, c: Tid, record: ThreadState, q: TQ.Queues)
    requires Valid(s) && c in s.threadData
    requires q == (if s.threadData[c].status == Ready then TQ.Remove(s.readyQueue, s.threadData[c].currentPriority, c) else s.readyQueue)
    ensures s.threadData[c].status == Running ==> q == s.readyQueue
    ensures TQ.Flatten(s.readyQueue) == [] ==> q == s.readyQueue
  {
    if TQ.Flatten(s.readyQueue) == [] && s.threadData[c].status == Ready {
      TQ.InFlatten(s.readyQueue, c);
    }
  }

  /** What a reschedule does once the current thread has blocked: it stays
      current only if nothing is queued; otherwise the first queued thread
      takes over and the blocked one is made READY. */
  lemma RescheduleAfterBlock(s: Scheduler, c: Tid)
    requires Valid(s) && s.currentThread == Some(c)
    requires s.threadData[c].status != Ready && s.threadData[c].status != Running
    ensures TQ.Flatten(s.readyQueue) == [] ==>
              Reschedule(s).currentThread == Some(c) && Reschedule(s).threadData[c] == s.threadData[c]
    ensures TQ.Flatten(s.readyQueue) != [] ==>
              && Reschedule(s).currentThread == Some(TQ.Flatten(s.readyQueue)[0])
              && Reschedule(s).threadData[c].status == Ready
              && SameButStatus(Reschedule(s).threadData[c], s.threadData[c])
  {
    var popped := PopNextReadyThread(s);
    if popped.entry.Some? {
      assert popped.entry.value != c;
    }
  }

  /** Two views of one thread that differ at most in the wait record: the
      status and the priorities agree. */
  predicate SameButWaitRecord(a: ThreadState, b: ThreadState) {
    && a.threadId == b.threadId
    && a.status == b.status
    && a.initialPriority == b.initialPriority
    && a.currentPriority == b.currentPriority
  }

  lemma WaitRecordKeepsInvariant(s: Scheduler, t: Tid, record: ThreadState)
    requires Valid(s) && t in s.threadData && SameButWaitRecord(record, s.threadData[t])
    ensures Valid(s.(threadData := s.threadData[t := record]))
  {
    var r := s.(threadData := s.threadData[t := record]);
    assert Registry(r);
  }

  /** WaitCurrentThread_Sleep. */
  function WaitCurrentThreadSleep(s: Scheduler): (r: Scheduler)
    requires Valid(s) && s.currentThread.Some?
    ensures Valid(r)
    ensures r.currentThread.Some? && SwitchEffectsOnly(s.effects, r.effects)
    ensures TQ.Flatten(s.readyQueue) == [] ==> r.readyQueue == s.readyQueue
    ensures r.ticks == s.ticks + RESCHEDULE_TICKS && r.threadList == s.threadList
    ensures var c := s.currentThread.value;
              && (TQ.Flatten(s.readyQueue) == [] ==>
                    r.currentThread == Some(c) && r.threadData[c] == s.threadData[c].(status := WaitSleep))
              && (CurrentIsRunning(s) && TQ.Flatten(s.readyQueue) != [] ==>
                    && r.currentThread == Some(TQ.Flatten(s.readyQueue)[0])
                    && r.threadData[c].status == Ready)
  {
    BlockCurrent(s, WaitSleep, s.threadData[s.currentThread.value])
  }

  /** WaitCurrentThread_WaitSynchronization: record the output and wait-all
      flags, append the objects to the thread's wait list (which is never
      cleared), and block in WAIT_SYNC. */
  function WaitCurrentThreadWaitSynchronization(s: Scheduler, objects: seq<ObjId>, waitSetOutput: bool, waitAll: bool): (r: Scheduler)
    requires Valid(s) && s.currentThread.Some?
    ensures Valid(r)
    ensures r.currentThread.Some? && SwitchEffectsOnly(s.effects, r.effects)
    ensures TQ.Flatten(s.readyQueue) == [] ==> r.readyQueue == s.readyQueue
    ensures r.ticks == s.ticks + RESCHEDULE_TICKS && r.threadList == s.threadList && r.waiters == s.waiters
    ensures var c := s.currentThread.value;
            var st := s.threadData[c];
              && c in r.threadData
              && r.threadData[c].waitObjects == st.waitObjects + objects
              && r.threadData[c].waitSetOutput == waitSetOutput
              && r.threadData[c].waitAll == waitAll
              && (TQ.Flatten(s.readyQueue) == [] ==>
                    r.currentThread == Some(c) && r.threadData[c].status == WaitSync)
              && (CurrentIsRunning(s) && TQ.Flatten(s.readyQueue) != [] ==>
                    && r.currentThread == Some(TQ.Flatten(s.readyQueue)[0])
                    && r.threadData[c].status == Ready)
  {
    var st := s.threadData[s.currentThread.value];
    BlockCurrent(s, WaitSync, st.(waitSetOutput := waitSetOutput, waitAll := waitAll, waitObjects := st.waitObjects + objects))
  }

  /** WaitCurrentThread_ArbitrateAddress: record the address and block in
      WAIT_ARB. */
  function WaitCurrentThreadArbitrateAddress(s: Scheduler, address: VAddr): (r: Scheduler)
    requires Valid(s) && s.currentThread.Some?
    ensures Valid(r)
    ensures r.currentThread.Some? && SwitchEffectsOnly(s.effects, r.effects)
    ensures TQ.Flatten(s.readyQueue) == [] ==> r.readyQueue == s.readyQueue
    ensures r.ticks == s.ticks + RESCHEDULE_TICKS && r.threadList == s.threadList && r.waiters == s.waiters
    ensures var c := s.currentThread.value;
              && (TQ.Flatten(s.readyQueue) == [] ==>
                    && r.currentThread == Some(c)
                    && CheckWaitAddressArbiter(r.threadData[c], address))
              && (CurrentIsRunning(s) && TQ.Flatten(s.readyQueue) != [] ==>
                    && r.currentThread == Some(TQ.Flatten(s.readyQueue)[0])
                    && r.threadData[c].status == Ready
                    && r.threadData[c].waitAddress == address)
  {
    var st := s.threadData[s.currentThread.value];
    BlockCurrent(s, WaitArb, st.(waitAddress := address))
  }

  /** Resume each of `woken` in turn, as WakeupAllWaitingThreads does for
      the threads waiting on a wait object: every one of them ends READY
      and every other thread is untouched. Which threads those are is
      decided by the wait-object code, which is not part of this model, so
      `woken` is an input supplied by the caller. */
  function ResumeAll(s: Scheduler, woken: seq<Tid>): (r: Scheduler)
    requires Valid(s) && forall u :: u in woken ==> u in s.threadData
    ensures Valid(r)
    ensures r.threadList == s.threadList && r.currentThread == s.currentThread
    ensures r.ticks == s.ticks && r.nextThreadId == s.nextThreadId
    ensures s.effects <= r.effects
    ensures forall u :: u in woken ==> u in r.threadData && r.threadData[u].status == Ready
    ensures forall u :: u in s.threadData && u !in woken ==> u in r.threadData && r.threadData[u] == s.threadData[u]
    decreases |woken|
  {
    if woken == [] then s
    else
      var s' := ResumeFromWait(s, woken[0]);
      ResumeAll(s', woken[1..])
  }

  /** ExitCurrentThread up to the wakeups: the caller's mutexes released,
      its wakeup cancelled and the caller DEAD. */
  function ExitAndKill(s: Scheduler): (r: Scheduler)
    requires Valid(s) && s.currentThread.Some?
    ensures Valid(r)
    ensures r.currentThread == s.currentThread && r.threadList == s.threadList && r.ticks == s.ticks
    ensures var c := s.currentThread.value;
              && r.effects == s.effects + [MutexesReleased(c), WakeupCancelled(c)]
              && Updated(r.threadData, s.threadData, c, s.threadData[c].(status := Dead))
              && (s.threadData[c].status != Ready ==> r.readyQueue == s.readyQueue)
  {
    var c := s.currentThread.value;
    var s1 := s.(effects := s.effects + [MutexesReleased(c), WakeupCancelled(c)]);
    LogKeepsInvariant(s, s1.effects, None);
    MakeNotReady(s1, c, Dead)
  }

  /** ExitCurrentThread up to the reschedule: the caller's mutexes
      released, its wakeup cancelled, the caller DEAD and the threads
      waiting on it resumed. */
  function ExitAndWake(s: Scheduler, woken: seq<Tid>): (r: Scheduler)
    requires Valid(s) && s.currentThread.Some?
    requires forall u :: u in woken ==> u in s.threadData && u != s.currentThread.value
    ensures Valid(r)
    ensures r.currentThread == s.currentThread && r.threadList == s.threadList && r.ticks == s.ticks
    ensures var c := s.currentThread.value;
              && s.effects + [MutexesReleased(c), WakeupCancelled(c)] <= r.effects
              && c in r.threadData && r.threadData[c] == s.threadData[c].(status := Dead)
              && (forall u :: u in woken ==> u in r.threadData && r.threadData[u].status == Ready)
              && (woken != [] ==> TQ.Flatten(r.readyQueue) != [])
              && (woken == [] && (TQ.Flatten(s.readyQueue) == [] || CurrentIsRunning(s)) ==> r.readyQueue == s.readyQueue)
  {
    var c := s.currentThread.value;
    var s2 := ExitAndKill(s);
    var s3 := ResumeAll(s2, woken);
    assert woken != [] ==> TQ.Flatten(s3.readyQueue) != [] by {
      if woken != [] {
        ReadyIsQueued(s3, woken[0]);
      }
    }
    assert TQ.Flatten(s.readyQueue) == [] ==> s.threadData[c].status != Ready by {
      if s.threadData[c].status == Ready {
        ReadyIsQueued(s, c);
      }
    }
    s3
  }

  /** ExitCurrentThread: release the thread's mutexes, cancel its wakeup,
      mark it DEAD, wake every thread waiting on it, and reschedule.
      `woken` lists the threads waiting on the exiting thread, in the order
      its WakeupAllWaitingThreads resumes them; that wait-object code is
      not part of this model. */
  function ExitCurrentThread(s: Scheduler, woken: seq<Tid>): (r: Scheduler)
    requires Valid(s) && s.currentThread.Some?
    requires forall u :: u in woken ==> u in s.threadData && u != s.currentThread.value
    ensures Valid(r)
    ensures r.currentThread.Some?
    ensures r.ticks == s.ticks + RESCHEDULE_TICKS && r.threadList == s.threadList
    ensures var c := s.currentThread.value;
              && s.effects + [MutexesReleased(c), WakeupCancelled(c)] <= r.effects
              && (TQ.Flatten(s.readyQueue) == [] && woken == [] ==>
                    r.currentThread == Some(c) && r.threadData[c] == s.threadData[c].(status := Dead))
              && (CurrentIsRunning(s) && (TQ.Flatten(s.readyQueue) != [] || woken != []) ==>
                    && r.currentThread != Some(c)
                    && r.threadData[c].status == Ready)
              && (CurrentIsRunning(s) && TQ.Flatten(s.readyQueue) != [] && woken == [] ==>
                    r.currentThread == Some(TQ.Flatten(s.readyQueue)[0]))
  {
    var c := s.currentThread.value;
    var s3 := ExitAndWake(s, woken);
    var r := Reschedule(s3);
    RescheduleAfterExit(s3, c);
    r
  }

  /** Every thread in `woken` is resumed: afterwards it is READY, or
      RUNNING as the thread the core switched to. `woken` is the caller's
      input standing for the threads waiting on the exiting thread; this is
      a fact about ExitCurrentThread given that list, not about how the
      wait objects choose it. */
  lemma ExitResumesWaiters(s: Scheduler, woken: seq<Tid>, u: Tid)
    requires Valid(s) && s.currentThread.Some?
    requires forall u :: u in woken ==> u in s.threadData && u != s.currentThread.value
    requires u in woken
    ensures var r := ExitCurrentThread(s, woken);
            && u in r.threadData
            && (r.threadData[u].status == Ready || (r.currentThread == Some(u) && r.threadData[u].status == Running))
  {
    RescheduleKeepsReady(ExitAndWake(s, woken), u);
  }

  /** A READY thread is still READY after a reschedule, unless it is the
      one switched to. */
  lemma RescheduleKeepsReady(s: Scheduler, u: Tid)
    requires Valid(s) && u in s.threadData && s.threadData[u].status == Ready
    ensures u in Reschedule(s).threadData
    ensures Reschedule(s).threadData[u].status == Ready ||
            (Reschedule(s).currentThread == Some(u) && Reschedule(s).threadData[u].status == Running)
  {
    var r := Reschedule(s);
    var popped := PopNextReadyThread(s);
    if popped.entry.Some? {
      var next := popped.entry.value;
      if u != next && Some(u) != s.currentThread {
        assert r.threadData[u] == s.threadData[u];
      }
    }
  }

  /** The reschedule that ends ExitCurrentThread: the caller stays current
      only when nothing is queued. */
  lemma RescheduleAfterExit(s: Scheduler, c: Tid)
    requires Valid(s) && s.currentThread == Some(c) && s.threadData[c].status == Dead
    ensures TQ.Flatten(s.readyQueue) == [] ==>
              Reschedule(s).currentThread == Some(c) && Reschedule(s).threadData[c] == s.threadData[c]
    ensures TQ.Flatten(s.readyQueue) != [] ==>
              && Reschedule(s).currentThread == Some(TQ.Flatten(s.readyQueue)[0])
              && TQ.Flatten(s.readyQueue)[0] != c
              && Reschedule(s).threadData[c].status == Ready
  {
    RescheduleAfterBlock(s, c);
    var popped := PopNextReadyThread(s);
    if popped.entry.Some? {
      assert popped.entry.value != c;
    }
  }

  /** A READY thread is queued, so the queue is not empty. */
  lemma ReadyIsQueued(s: Scheduler, u: Tid)
    requires Valid(s) && u in s.threadData && s.threadData[u].status == Ready
    ensures TQ.Flatten(s.readyQueue) != []
  {
    assert u in s.readyQueue[s.threadData[u].currentPriority];
    TQ.InFlatten(s.readyQueue, u);
  }




  // ---------------------------------------------------------------------
  // Address arbitration and timed wakeups

  /** The thread at position k of thread_list waits on `address`. */
  predicate ArbWaiterAt(s: Scheduler, address: VAddr, k: nat)
    requires Registry(s) && k < |s.threadList|
  {
    CheckWaitAddressArbiter(s.threadData[s.threadList[k]], address)
  }

  function PriorityAt(s: Scheduler, k: nat): int
    requires Registry(s) && k < |s.threadList|
  {
    s.threadData[s.threadList[k]].currentPriority
  }

  /** The loop of ArbitrateHighestPriorityThread over the first n entries of
      thread_list: the position of the chosen thread and the priority bound
      the loop carries, which starts at THREADPRIO_LOWEST and is compared
      with `<=`, so among equals the one met last wins. */
  function ScanHighest(s: Scheduler, address: VAddr, n: nat): (r: (Option<nat>, int))
    requires Registry(s) && n <= |s.threadList|
    ensures r.0.Some? ==> r.0.value < n && ArbWaiterAt(s, address, r.0.value) && r.1 == PriorityAt(s, r.0.value)
    ensures r.0.None? ==> r.1 == THREADPRIO_LOWEST
    ensures r.0.None? ==> forall k :: 0 <= k < n && ArbWaiterAt(s, address, k) ==> PriorityAt(s, k) > THREADPRIO_LOWEST
    ensures forall k :: 0 <= k < n && ArbWaiterAt(s, address, k) && PriorityAt(s, k) <= THREADPRIO_LOWEST ==>
              r.1 <= PriorityAt(s, k)
    ensures r.0.Some? ==> forall k :: r.0.value < k < n && ArbWaiterAt(s, address, k) ==> PriorityAt(s, k) > r.1
    decreases n
  {
    if n == 0 then (None, THREADPRIO_LOWEST)
    else
      var prev := ScanHighest(s, address, n - 1);
      if ArbWaiterAt(s, address, n - 1) && PriorityAt(s, n - 1) <= prev.1 then (Some(n - 1), PriorityAt(s, n - 1))
      else prev
  }

  /** The thread the loop of ArbitrateHighestPriorityThread settles on: a
      waiter on `address` with the best priority of all waiters, the last
      of equals in thread_list order; nothing when no thread waits there. */
  function HighestWaiter(s: Scheduler, address: VAddr): (r: Option<Tid>)
    requires Valid(s)
    ensures r.None? <==> forall u :: u in s.threadData ==> !CheckWaitAddressArbiter(s.threadData[u], address)
    ensures r.Some? ==>
              && r.value in s.threadData
              && CheckWaitAddressArbiter(s.threadData[r.value], address)
              && (forall u :: u in s.threadData && CheckWaitAddressArbiter(s.threadData[u], address) ==>
                    s.threadData[r.value].currentPriority <= s.threadData[u].currentPriority)
  {
    var scan := ScanHighest(s, address, |s.threadList|);
    ScanFindsAll(s, address, scan);
    match scan.0
    case None => None
    case Some(k) => Some(s.threadList[k])
  }

  /** ArbitrateHighestPriorityThread: resume the thread HighestWaiter
      picks and return it; nothing changes when no thread waits there. */
  function ArbitrateHighestPriorityThread(s: Scheduler, address: VAddr): (r: (Scheduler, Option<Tid>))
    requires Valid(s)
    ensures Valid(r.0)
    ensures r.1 == HighestWaiter(s, address)
    ensures r.1.None? <==> forall u :: u in s.threadData ==> !CheckWaitAddressArbiter(s.threadData[u], address)
    ensures r.1.None? ==> r.0 == s
    ensures r.1.Some? ==>
              var t := r.1.value;
              && t in s.threadData
              && CheckWaitAddressArbiter(s.threadData[t], address)
              && (forall u :: u in s.threadData && CheckWaitAddressArbiter(s.threadData[u], address) ==>
                    s.threadData[t].currentPriority <= s.threadData[u].currentPriority)
              && r.0 == ResumeFromWait(s, t)
  {
    var t := HighestWaiter(s, address);
    match t
    case None => (s, None)
    case Some(u) => (ResumeFromWait(s, u), t)
  }

  lemma ScanFindsAll(s: Scheduler, address: VAddr, scan: (Option<nat>, int))
    requires Valid(s) && scan == ScanHighest(s, address, |s.threadList|)
    ensures scan.0.None? <==> forall u :: u in s.threadData ==> !CheckWaitAddressArbiter(s.threadData[u], address)
    ensures scan.0.Some? ==>
              forall u :: u in s.threadData && CheckWaitAddressArbiter(s.threadData[u], address) ==>
                PriorityAt(s, scan.0.value) <= s.threadData[u].currentPriority
  {
    forall u | u in s.threadData && CheckWaitAddressArbiter(s.threadData[u], address)
      ensures scan.0.Some? && PriorityAt(s, scan.0.value) <= s.threadData[u].currentPriority
    {
      var k :| 0 <= k < |s.threadList| && s.threadList[k] == u;
      assert ArbWaiterAt(s, address, k);
    }
  }

  /** The tie rule of ArbitrateHighestPriorityThread (its `<=` comparison):
      every waiter later in thread_list than the thread chosen has a
      strictly worse priority. */
  lemma HighestWaiterIsLastOfEquals(s: Scheduler, address: VAddr)
    requires Valid(s)
    ensures var w := HighestWaiter(s, address);
            w.Some? ==>
              forall i, j :: 0 <= i < j < |s.threadList| && s.threadList[i] == w.value &&
                             CheckWaitAddressArbiter(s.threadData[s.threadList[j]], address) ==>
                s.threadData[s.threadList[j]].currentPriority > s.threadData[w.value].currentPriority
  {
    var scan := ScanHighest(s, address, |s.threadList|);
    var w := HighestWaiter(s, address);
    if w.Some? {
      var k := scan.0.value;
      forall i, j | 0 <= i < j < |s.threadList| && s.threadList[i] == w.value &&
                    CheckWaitAddressArbiter(s.threadData[s.threadList[j]], address)
        ensures s.threadData[s.threadList[j]].currentPriority > s.threadData[w.value].currentPriority
      {
        assert i == k;
        assert ArbWaiterAt(s, address, j);
      }
    }
  }

  /** The threads from position i of thread_list on that wait on
      `address` with priority p, in thread_list order: what
      ArbitrateAllThreads appends to bucket p. */
  function ArbEnqueued(s: Scheduler, address: VAddr, i: nat, p: int): seq<Tid>
    requires Registry(s) && i <= |s.threadList|
    decreases |s.threadList| - i
  {
    if i == |s.threadList| then []
    else
      var st := s.threadData[s.threadList[i]];
      (if CheckWaitAddressArbiter(st, address) && st.currentPriority == p then [s.threadList[i]] else [])
        + ArbEnqueued(s, address, i + 1, p)
  }

  /** The wakeup cancellations ArbitrateAllThreads logs from position i of
      thread_list on, one per waiter, in thread_list order. */
  function ArbCancellations(s: Scheduler, address: VAddr, i: nat): seq<Effect>
    requires Registry(s) && i <= |s.threadList|
    decreases |s.threadList| - i
  {
    if i == |s.threadList| then []
    else
      (if CheckWaitAddressArbiter(s.threadData[s.threadList[i]], address) then [WakeupCancelled(s.threadList[i])] else [])
        + ArbCancellations(s, address, i + 1)
  }

  /** ArbEnqueued from position i holds exactly the waiters on `address`
      with priority p at positions i and later. */
  lemma {:induction false} ArbEnqueuedFrom(s: Scheduler, address: VAddr, i: nat, p: int, u: Tid)
    requires Registry(s) && i <= |s.threadList|
    ensures u in ArbEnqueued(s, address, i, p) <==>
              exists k :: i <= k < |s.threadList| && s.threadList[k] == u &&
                CheckWaitAddressArbiter(s.threadData[u], address) && s.threadData[u].currentPriority == p
    decreases |s.threadList| - i
  {
    if i < |s.threadList| {
      ArbEnqueuedFrom(s, address, i + 1, p, u);
    }
  }

  /** So ArbitrateAllThreads appends to bucket p exactly the threads that
      wait on `address` with priority p. */
  lemma ArbEnqueuedIsTheWaiters(s: Scheduler, address: VAddr, p: int, u: Tid)
    requires Registry(s)
    ensures u in ArbEnqueued(s, address, 0, p) <==>
              u in s.threadData && CheckWaitAddressArbiter(s.threadData[u], address) && s.threadData[u].currentPriority == p
  {
    ArbEnqueuedFrom(s, address, 0, p, u);
    if u in s.threadData {
      var k :| 0 <= k < |s.threadList| && s.threadList[k] == u;
    }
  }

  /** Both sequences from position i on depend only on the threads at
      positions i and later. */
  lemma {:induction false} ArbSuffixFrame(s: Scheduler, s2: Scheduler, address: VAddr, i: nat)
    requires Registry(s) && Registry(s2) && s2.threadList == s.threadList && i <= |s.threadList|
    requires forall k :: i <= k < |s.threadList| ==> s2.threadData[s.threadList[k]] == s.threadData[s.threadList[k]]
    ensures forall p :: ArbEnqueued(s2, address, i, p) == ArbEnqueued(s, address, i, p)
    ensures ArbCancellations(s2, address, i) == ArbCancellations(s, address, i)
    decreases |s.threadList| - i
  {
    if i < |s.threadList| {
      ArbSuffixFrame(s, s2, address, i + 1);
    }
  }

  /** One step of ArbitrateAllThreads at position i, as the buckets see it:
      a waiter pushed to the back of its bucket moves from the pending
      suffix to the bucket. */
  lemma EnqueueStep(s: Scheduler, q: TQ.Queues, address: VAddr, i: nat)
    requires Registry(s) && i < |s.threadList|
    requires |s.readyQueue| == TQ.NUM_QUEUES && |q| == TQ.NUM_QUEUES
    requires var st := s.threadData[s.threadList[i]];
             if CheckWaitAddressArbiter(st, address) then
               && 0 <= st.currentPriority < TQ.NUM_QUEUES
               && q[st.currentPriority] == s.readyQueue[st.currentPriority] + [s.threadList[i]]
               && (forall p :: 0 <= p < TQ.NUM_QUEUES && p != st.currentPriority ==> q[p] == s.readyQueue[p])
             else q == s.readyQueue
    ensures forall p :: 0 <= p < TQ.NUM_QUEUES ==>
              q[p] + ArbEnqueued(s, address, i + 1, p) == s.readyQueue[p] + ArbEnqueued(s, address, i, p)
  {
    forall p | 0 <= p < TQ.NUM_QUEUES
      ensures q[p] + ArbEnqueued(s, address, i + 1, p) == s.readyQueue[p] + ArbEnqueued(s, address, i, p)
    {
      var st := s.threadData[s.threadList[i]];
      if CheckWaitAddressArbiter(st, address) && st.currentPriority == p {
        assert q[p] + ArbEnqueued(s, address, i + 1, p) == s.readyQueue[p] + ([s.threadList[i]] + ArbEnqueued(s, address, i + 1, p));
      }
    }
  }

  /** The same step as the log sees it. */
  lemma CancelStep(s: Scheduler, e: seq<Effect>, address: VAddr, i: nat)
    requires Registry(s) && i < |s.threadList|
    requires e == s.effects + if CheckWaitAddressArbiter(s.threadData[s.threadList[i]], address)
                              then [WakeupCancelled(s.threadList[i])] else []
    ensures e + ArbCancellations(s, address, i + 1) == s.effects + ArbCancellations(s, address, i)
  {
  }

  /** `r` is what resuming the waiters on `address` from position i of
      thread_list on leaves of `s`, as the buckets, the log and the waiter
      lists see it: each waiter appended to its bucket and logged as a
      cancelled wakeup, in thread_list order, and no waiter list changed. */
  predicate ArbAppended(s: Scheduler, r: Scheduler, address: VAddr, i: nat)
    requires Registry(s) && i <= |s.threadList|
  {
    && |s.readyQueue| == TQ.NUM_QUEUES && |r.readyQueue| == TQ.NUM_QUEUES
    && (forall p :: 0 <= p < TQ.NUM_QUEUES ==> r.readyQueue[p] == s.readyQueue[p] + ArbEnqueued(s, address, i, p))
    && r.effects == s.effects + ArbCancellations(s, address, i)
    && r.waiters == s.waiters
  }

  /** The step of ArbitrateAllThreads at position i, as ArbAppended sees
      it: appending the rest after the step appends everything from i. */
  predicate ArbStepped(s: Scheduler, s': Scheduler, address: VAddr, i: nat)
    requires Registry(s) && i < |s.threadList|
  {
    && |s.readyQueue| == TQ.NUM_QUEUES && |s'.readyQueue| == TQ.NUM_QUEUES
    && (forall p :: 0 <= p < TQ.NUM_QUEUES ==>
          s'.readyQueue[p] + ArbEnqueued(s, address, i + 1, p) == s.readyQueue[p] + ArbEnqueued(s, address, i, p))
    && s'.effects + ArbCancellations(s, address, i + 1) == s.effects + ArbCancellations(s, address, i)
    && s'.waiters == s.waiters
  }

  /** A step followed by the rest from i + 1 is the whole from i. */
  lemma ArbChain(s: Scheduler, s': Scheduler, r: Scheduler, address: VAddr, i: nat)
    requires Registry(s) && Registry(s') && s'.threadList == s.threadList && i < |s.threadList|
    requires forall k :: i < k < |s.threadList| ==> s'.threadData[s.threadList[k]] == s.threadData[s.threadList[k]]
    requires ArbStepped(s, s', address, i)
    requires ArbAppended(s', r, address, i + 1)
    ensures ArbAppended(s, r, address, i)
  {
    ArbSuffixFrame(s, s', address, i + 1);
  }

  /** The step of ArbitrateAllThreads at position i of thread_list: the
      thread there is resumed when it waits on `address`. */
  function ArbStep(s: Scheduler, address: VAddr, i: nat): (s': Scheduler)
    requires Valid(s) && i < |s.threadList|
    ensures Valid(s')
    ensures s'.threadList == s.threadList && s'.currentThread == s.currentThread
    ensures var u := s.threadList[i];
            && u in s'.threadData
            && s'.threadData[u] == if CheckWaitAddressArbiter(s.threadData[u], address)
                                   then s.threadData[u].(status := Ready) else s.threadData[u]
    ensures forall k :: 0 <= k < |s.threadList| && k != i ==>
              s.threadList[k] in s'.threadData && s'.threadData[s.threadList[k]] == s.threadData[s.threadList[k]]
    ensures ArbStepped(s, s', address, i)
  {
    var t := s.threadList[i];
    var s' := if CheckWaitAddressArbiter(s.threadData[t], address) then ResumeFromWait(s, t) else s;
    assert forall k :: 0 <= k < |s.threadList| && k != i ==> s.threadList[k] != t;
    EnqueueStep(s, s'.readyQueue, address, i);
    CancelStep(s, s'.effects, address, i);
    s'
  }

  /** ArbitrateAllThreads from position i of thread_list on: every thread
      waiting on `address` is resumed, in thread_list order. */
  function ArbitrateAllFrom(s: Scheduler, address: VAddr, i: nat): (r: Scheduler)
    requires Valid(s) && i <= |s.threadList|
    ensures Valid(r)
    ensures r.threadList == s.threadList && r.currentThread == s.currentThread
    ensures forall k :: 0 <= k < |s.threadList| ==>
              var u := s.threadList[k];
              u in r.threadData &&
              r.threadData[u] == if i <= k && CheckWaitAddressArbiter(s.threadData[u], address)
                                 then s.threadData[u].(status := Ready) else s.threadData[u]
    ensures ArbAppended(s, r, address, i)
    decreases |s.threadList| - i
  {
    if i == |s.threadList| then s
    else
      var s' := ArbStep(s, address, i);
      var r := ArbitrateAllFrom(s', address, i + 1);
      ArbChain(s, s', r, address, i);
      r
  }

  /** ArbitrateAllThreads: resume every thread waiting on `address`. Each
      waiter goes to the back of its priority's bucket, in thread_list
      order, and gets its wakeup cancelled; the waiter lists of wait
      objects are untouched. */
  function ArbitrateAllThreads(s: Scheduler, address: VAddr): (r: Scheduler)
    requires Valid(s)
    ensures Valid(r)
    ensures r.threadList == s.threadList && r.currentThread == s.currentThread
    ensures forall u :: u in s.threadData ==>
              u in r.threadData &&
              r.threadData[u] == if CheckWaitAddressArbiter(s.threadData[u], address)
                                 then s.threadData[u].(status := Ready) else s.threadData[u]
    ensures forall p :: 0 <= p < TQ.NUM_QUEUES ==> r.readyQueue[p] == s.readyQueue[p] + ArbEnqueued(s, address, 0, p)
    ensures r.effects == s.effects + ArbCancellations(s, address, 0)
    ensures r.waiters == s.waiters
  {
    var r := ArbitrateAllFrom(s, address, 0);
    assert ArbAppended(s, r, address, 0);
    forall u | u in s.threadData
      ensures u in r.threadData
      ensures r.threadData[u] == if CheckWaitAddressArbiter(s.threadData[u], address)
                                 then s.threadData[u].(status := Ready) else s.threadData[u]
    {
      var k :| 0 <= k < |s.threadList| && s.threadList[k] == u;
    }
    r
  }

  /** Every thread a handle can name is registered with the scheduler. */
  predicate HandlesRegistered(s: Scheduler, table: HandleTable) {
    forall h :: h in table && table[h].ThreadObject? ==> table[h].thread in s.threadData
  }

  /** ThreadWakeupCallback: a wakeup for a handle that no longer names a
      thread is dropped; a thread timed out in WAIT_SYNC gets the Timeout
      result (and output -1 if it asked for an output) before it resumes. */
  function ThreadWakeupCallback(s: Scheduler, table: HandleTable, handle: Handle): (r: Scheduler)
    requires Valid(s) && HandlesRegistered(s, table)
    ensures Valid(r)
    ensures GetThread(table, handle).None? ==> r == s
    ensures GetThread(table, handle).Some? ==>
              var t := GetThread(table, handle).value;
              var st := s.threadData[t];
              var timeout := if st.status == WaitSync then
                               [ResultSet(t, TIMEOUT_RAW)] + (if st.waitSetOutput then [OutputSet(t, -1)] else [])
                             else [];
              && Updated(r.threadData, s.threadData, t, st.(status := Ready))
              && (st.status == WaitSync ==> r.waiters == RemoveWaiter(s.waiters, st.waitObjects, t))
              && (st.status != WaitSync ==> r.waiters == s.waiters)
              && r.readyQueue[st.currentPriority] ==
                   (if st.status == Running then [t] + s.readyQueue[st.currentPriority]
                    else s.readyQueue[st.currentPriority] + [t])
              && (forall i :: 0 <= i < TQ.NUM_QUEUES && i != st.currentPriority ==> r.readyQueue[i] == s.readyQueue[i])
              && r.effects == s.effects + timeout + [WakeupCancelled(t)] +
                              (if Resumable(st.status) then [] else [AssertionFailed(t)])
    ensures r.threadList == s.threadList && r.currentThread == s.currentThread
    ensures r.ticks == s.ticks && r.nextThreadId == s.nextThreadId
  {
    match GetThread(table, handle)
    case None => s
    case Some(t) =>
      var st := s.threadData[t];
      var timeout := if st.status == WaitSync then
                       [ResultSet(t, TIMEOUT_RAW)] + (if st.waitSetOutput then [OutputSet(t, -1)] else [])
                     else [];
      LogKeepsInvariant(s, s.effects + timeout, None);
      ResumeFromWait(s.(effects := s.effects + timeout), t)
  }
}
