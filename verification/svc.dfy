/** The system calls built on the scheduler: waiting on one or several
    handles, reading and setting a thread's priority, sleeping, and the
    arbitration entry point. Each call runs on behalf of the core's current
    thread; the CPU registers a call writes are its Reply. */
module Svc {
  import opened Types
  import PS = PriorityScheduler
  import TQ = ThreadQueueList
  import opened Kernel
  import AddressArbiter

  /** RESULT_INVALID: the caller is blocked and the real result arrives
      when it resumes. */
  const RESULT_INVALID_RAW: bv32 := SENTINEL_RAW

  predicate S64(v: int) {
    PS.S64_MIN <= v <= PS.S64_MAX
  }

  // ---------------------------------------------------------------------
  // WaitSynchronization1

  /** WaitSynchronization1: an available object is acquired at once;
      otherwise the caller joins the object's waiters, blocks in WAIT_SYNC
      on it alone with no output, and a timeout is scheduled for whichever
      thread is current after the reschedule. */
  function WaitSynchronization1(k: System, handle: Handle, nanoseconds: int): (r: Reply)
    requires Valid(k) && S64(nanoseconds)
    ensures Valid(r.system) && r.out.None?
    ensures r.system.table == k.table && r.system.memory == k.memory && r.system.singleUse == k.singleUse
    ensures k.busy <= r.system.busy <= k.busy + k.singleUse
    ensures !Resolves(k, handle) ==> r == Reply(k, InvalidHandle, None)
    ensures Resolves(k, handle) && !ShouldWait(k, handle) ==>
              && r.code == Success
              && r.system.sched == k.sched.(effects := k.sched.effects + [PS.Acquired(k.table[handle].waitable)])
    ensures Resolves(k, handle) && ShouldWait(k, handle) ==>
              && r.code == Sentinel
              && r.system.sched.ticks == k.sched.ticks + PS.RESCHEDULE_TICKS
              && Waiters(r.system.sched, k.table[handle].waitable) ==
                   Waiters(k.sched, k.table[handle].waitable) + {k.sched.currentThread.value}
    ensures Resolves(k, handle) && ShouldWait(k, handle) ==>
              var c := k.sched.currentThread.value;
              && c in r.system.sched.threadData
              && r.system.sched.threadData[c].waitObjects ==
                   k.sched.threadData[c].waitObjects + [k.table[handle].waitable]
              && !r.system.sched.threadData[c].waitSetOutput
              && !r.system.sched.threadData[c].waitAll
  {
    if !Resolves(k, handle) then Reply(k, InvalidHandle, None)
    else if !ShouldWait(k, handle) then Reply(Acquire(k, handle), Success, None)
    else Reply(WaitOnOne(k, k.table[handle].waitable, nanoseconds), Sentinel, None)
  }

  /** The blocking path of WaitSynchronization1 on object o: join its
      waiters, block in WAIT_SYNC on it alone with no output, and schedule
      the timeout for the thread current after the reschedule. */
  function WaitOnOne(k: System, o: ObjId, nanoseconds: int): (r: System)
    requires Valid(k) && S64(nanoseconds)
    ensures Valid(r)
    ensures r.table == k.table && r.memory == k.memory && r.singleUse == k.singleUse && r.busy == k.busy
    ensures r.sched.ticks == k.sched.ticks + PS.RESCHEDULE_TICKS
    ensures Waiters(r.sched, o) == Waiters(k.sched, o) + {k.sched.currentThread.value}
    ensures var c := k.sched.currentThread.value;
              && c in r.sched.threadData
              && r.sched.threadData[c].waitObjects == k.sched.threadData[c].waitObjects + [o]
              && !r.sched.threadData[c].waitSetOutput
              && !r.sched.threadData[c].waitAll
  {
    var s1 := AddWaitingThread(k.sched, o, k.sched.currentThread.value);
    var s2 := PS.WaitCurrentThreadWaitSynchronization(s1, [o], false, false);
    var s3 := PS.WakeThreadAfterDelay(s2, s2.currentThread.value, nanoseconds);
    WithScheduler(k, s3)
  }

  /** A blocked WaitSynchronization1 logs only context switches and then,
      unless the timeout is -1, one wakeup for whichever thread is current
      after the reschedule. */
  lemma Wait1Timeout(k: System, handle: Handle, nanoseconds: int)
    requires Valid(k) && S64(nanoseconds) && Resolves(k, handle) && ShouldWait(k, handle)
    ensures var r := WaitSynchronization1(k, handle, nanoseconds).system.sched;
              && (nanoseconds == -1 ==> PS.SwitchEffectsOnly(k.sched.effects, r.effects))
              && (nanoseconds != -1 ==>
                    && |r.effects| > 0
                    && PS.SwitchEffectsOnly(k.sched.effects, r.effects[..|r.effects| - 1])
                    && r.effects[|r.effects| - 1] == PS.WakeupScheduled(r.currentThread.value, PS.WakeupDelay(nanoseconds)))
  {
    var o := k.table[handle].waitable;
    var s1 := AddWaitingThread(k.sched, o, k.sched.currentThread.value);
    var s2 := PS.WaitCurrentThreadWaitSynchronization(s1, [o], false, false);
    if nanoseconds != -1 {
      var r := WaitSynchronization1(k, handle, nanoseconds).system.sched;
      assert r.effects[..|r.effects| - 1] == s2.effects;
    }
  }

  /** With nothing else ready, a blocked WaitSynchronization1 leaves the
      caller current, in WAIT_SYNC on the object, asking for no output and
      not waiting for all. */
  lemma Wait1AloneBlocksCaller(k: System, handle: Handle, nanoseconds: int)
    requires Valid(k) && S64(nanoseconds) && Resolves(k, handle) && ShouldWait(k, handle)
    requires TQ.Flatten(k.sched.readyQueue) == []
    ensures var r := WaitSynchronization1(k, handle, nanoseconds).system.sched;
            var c := k.sched.currentThread.value;
              && r.currentThread == Some(c)
              && r.threadData[c].status == WaitSync
              && r.threadData[c].waitObjects == k.sched.threadData[c].waitObjects + [k.table[handle].waitable]
              && !r.threadData[c].waitSetOutput && !r.threadData[c].waitAll
              && c in Waiters(r, k.table[handle].waitable)
              && PS.CheckWaitWaitObject(r.threadData[c], k.table[handle].waitable)
  {
  }

  // ---------------------------------------------------------------------
  // WaitSynchronizationN

  /** The first loop of WaitSynchronizationN over handles[i..]: stop at the
      first handle that names no wait object; otherwise decide whether to
      wait and, for wait-any, which handle to report. `waitThread`,
      `selected` and `index` are the loop's variables on entry. */
  function ScanHandles(k: System, handles: seq<Handle>, i: nat, waitAll: bool,
                       waitThread: bool, selected: bool, index: nat): (r: Option<(bool, nat)>)
    requires PS.HandlesRegistered(k.sched, k.table) && i <= |handles|
    requires !waitAll && !selected ==> waitThread
    ensures r.None? <==> exists j :: i <= j < |handles| && !Resolves(k, handles[j])
    ensures r.Some? && waitAll ==>
              r.value.0 == (waitThread || exists j :: i <= j < |handles| && ShouldWait(k, handles[j]))
    ensures r.Some? && !waitAll && selected ==> r.value == (waitThread, index)
    ensures r.Some? && !waitAll && !selected ==>
              && (r.value.0 <==> forall j :: i <= j < |handles| ==> ShouldWait(k, handles[j]))
              && (!r.value.0 ==> FirstAvailable(k, handles, i) == Some(r.value.1))
              && (FirstAvailable(k, handles, i).Some? ==> r.value == (false, FirstAvailable(k, handles, i).value))
    decreases |handles| - i
  {
    if i == |handles| then Some((waitThread, index))
    else if !Resolves(k, handles[i]) then None
    else if ShouldWait(k, handles[i]) then
      ScanHandles(k, handles, i + 1, waitAll, if waitAll then true else waitThread, selected, index)
    else if !waitAll && !selected then
      ScanHandles(k, handles, i + 1, waitAll, false, true, i)
    else
      ScanHandles(k, handles, i + 1, waitAll, waitThread, selected, index)
  }

  /** The position of the first handle from i on whose object is available,
      read as long as every handle on the way resolves. */
  function FirstAvailable(k: System, handles: seq<Handle>, i: nat): (r: Option<nat>)
    requires PS.HandlesRegistered(k.sched, k.table) && i <= |handles|
    ensures r.Some? ==> i <= r.value < |handles| && Resolves(k, handles[r.value]) && !ShouldWait(k, handles[r.value])
    ensures r.Some? ==> forall j :: i <= j < r.value ==> Resolves(k, handles[j]) && ShouldWait(k, handles[j])
    ensures r.None? && (forall j :: i <= j < |handles| ==> Resolves(k, handles[j])) ==>
              forall j :: i <= j < |handles| ==> ShouldWait(k, handles[j])
    decreases |handles| - i
  {
    if i == |handles| || !Resolves(k, handles[i]) then None
    else if !ShouldWait(k, handles[i]) then Some(i)
    else FirstAvailable(k, handles, i + 1)
  }

  predicate AllResolve(k: System, handles: seq<Handle>) {
    forall j :: 0 <= j < |handles| ==> Resolves(k, handles[j])
  }

  /** The wait objects behind the handles. */
  function ObjectsOf(k: System, handles: seq<Handle>): (objects: seq<ObjId>)
    requires AllResolve(k, handles)
    ensures |objects| == |handles|
    ensures forall j :: 0 <= j < |handles| ==> objects[j] == k.table[handles[j]].waitable
  {
    if handles == [] then []
    else [k.table[handles[0]].waitable] + ObjectsOf(k, handles[1..])
  }

  /** A scheduler with a calling thread: what every round of the blocking
      loop needs and leaves behind. */
  predicate Running(s: PS.Scheduler) {
    PS.Valid(s) && s.currentThread.Some?
  }

  /** One round of the blocking loop: the thread current at that moment
      joins the waiters of `o` and blocks on `o` alone, with output and the
      caller's wait-all flag; the core reschedules. */
  function BlockOn(s: PS.Scheduler, o: ObjId, waitAll: bool): (r: PS.Scheduler)
    requires Running(s)
    ensures Running(r) && r.threadList == s.threadList
    ensures r.ticks == s.ticks + PS.RESCHEDULE_TICKS
    ensures PS.SwitchEffectsOnly(s.effects, r.effects)
    ensures Waiters(r, o) == Waiters(s, o) + {s.currentThread.value}
    ensures forall p :: p != o ==> Waiters(r, p) == Waiters(s, p)
  {
    var s1 := AddWaitingThread(s, o, s.currentThread.value);
    PS.WaitCurrentThreadWaitSynchronization(s1, [o], true, waitAll)
  }

  /** With nothing else ready, one round leaves the caller current and
      waiting on `o`, with the queue still empty. */
  lemma BlockOnAlone(s: PS.Scheduler, o: ObjId, waitAll: bool)
    requires Running(s) && TQ.Flatten(s.readyQueue) == []
    ensures var r := BlockOn(s, o, waitAll);
            var c := s.currentThread.value;
              && r.currentThread == Some(c) && r.readyQueue == s.readyQueue
              && c in r.threadData
              && r.threadData[c].waitObjects == s.threadData[c].waitObjects + [o]
              && r.threadData[c].status == WaitSync
              && r.threadData[c].waitSetOutput && r.threadData[c].waitAll == waitAll
  {
  }

  /** The blocking loop of WaitSynchronizationN: one round per object, in
      order, each by whichever thread is current by then. */
  function BlockOnEach(s: PS.Scheduler, objects: seq<ObjId>, waitAll: bool): (r: PS.Scheduler)
    requires Running(s)
    ensures Running(r) && r.threadList == s.threadList
    decreases |objects|
  {
    if objects == [] then s
    else BlockOnEach(BlockOn(s, objects[0], waitAll), objects[1..], waitAll)
  }

  /** Every round costs one reschedule and logs only context switches. */
  lemma {:induction false} BlockOnEachSwitches(s: PS.Scheduler, objects: seq<ObjId>, waitAll: bool)
    requires Running(s)
    ensures var r := BlockOnEach(s, objects, waitAll);
              && r.ticks == s.ticks + PS.RESCHEDULE_TICKS * |objects|
              && PS.SwitchEffectsOnly(s.effects, r.effects)
    decreases |objects|
  {
    if objects != [] {
      var s1 := BlockOn(s, objects[0], waitAll);
      BlockOnEachSwitches(s1, objects[1..], waitAll);
      SwitchEffectsTrans(s.effects, s1.effects, BlockOnEach(s1, objects[1..], waitAll).effects);
    }
  }

  /** The blocking loop only adds waiters. */
  lemma {:induction false} BlockOnEachKeepsWaiters(s: PS.Scheduler, objects: seq<ObjId>, waitAll: bool, o: ObjId, t: Tid)
    requires Running(s) && t in Waiters(s, o)
    ensures t in Waiters(BlockOnEach(s, objects, waitAll), o)
    decreases |objects|
  {
    if objects != [] {
      BlockOnEachKeepsWaiters(BlockOn(s, objects[0], waitAll), objects[1..], waitAll, o, t);
    }
  }

  /** Every object passed ends with a waiter. */
  lemma {:induction false} BlockOnEachFillsWaiters(s: PS.Scheduler, objects: seq<ObjId>, waitAll: bool, o: ObjId)
    requires Running(s) && o in objects
    ensures Waiters(BlockOnEach(s, objects, waitAll), o) != {}
    decreases |objects|
  {
    var s1 := BlockOn(s, objects[0], waitAll);
    if o == objects[0] {
      BlockOnEachKeepsWaiters(s1, objects[1..], waitAll, o, s.currentThread.value);
    } else {
      InTail(objects, o);
      BlockOnEachFillsWaiters(s1, objects[1..], waitAll, o);
    }
  }

  /** The waiters of an object not passed do not change. */
  lemma {:induction false} BlockOnEachLeavesOthers(s: PS.Scheduler, objects: seq<ObjId>, waitAll: bool, o: ObjId)
    requires Running(s) && o !in objects
    ensures Waiters(BlockOnEach(s, objects, waitAll), o) == Waiters(s, o)
    decreases |objects|
  {
    if objects != [] {
      assert o != objects[0];
      NotInTail(objects, o);
      BlockOnEachLeavesOthers(BlockOn(s, objects[0], waitAll), objects[1..], waitAll, o);
    }
  }

  lemma InTail(objects: seq<ObjId>, o: ObjId)
    requires o in objects && o != objects[0]
    ensures o in objects[1..]
  {
    var i :| 0 <= i < |objects| && objects[i] == o;
    assert objects[1..][i - 1] == o;
  }

  lemma NotInTail(objects: seq<ObjId>, o: ObjId)
    requires objects != [] && o !in objects
    ensures o !in objects[1..]
  {
  }

  lemma AppendHead(w: seq<ObjId>, objects: seq<ObjId>)
    requires objects != []
    ensures w + objects == (w + [objects[0]]) + objects[1..]
  {
    assert objects == [objects[0]] + objects[1..];
  }

  lemma SwitchEffectsTrans(a: seq<PS.Effect>, b: seq<PS.Effect>, c: seq<PS.Effect>)
    requires PS.SwitchEffectsOnly(a, b) && PS.SwitchEffectsOnly(b, c)
    ensures PS.SwitchEffectsOnly(a, c)
  {
    forall i | |a| <= i < |c|
      ensures c[i].ContextSaved? || c[i].ContextLoaded?
    {
      if i < |b| {
        assert c[i] == b[i];
      }
    }
  }

  /** With nothing else ready, every round of the blocking loop finds the
      caller still current, and the ready queue stays empty. */
  lemma {:induction false} BlockAloneKeepsCaller(s: PS.Scheduler, objects: seq<ObjId>, waitAll: bool)
    requires Running(s) && TQ.Flatten(s.readyQueue) == []
    ensures BlockOnEach(s, objects, waitAll).currentThread == s.currentThread
    ensures BlockOnEach(s, objects, waitAll).readyQueue == s.readyQueue
    decreases |objects|
  {
    if objects != [] {
      BlockOnAlone(s, objects[0], waitAll);
      BlockAloneKeepsCaller(BlockOn(s, objects[0], waitAll), objects[1..], waitAll);
    }
  }

  /** With nothing else ready, the caller's wait list grows by all the
      objects, in order. */
  lemma {:induction false} BlockAloneWaitsOnAll(s: PS.Scheduler, objects: seq<ObjId>, waitAll: bool)
    requires Running(s) && TQ.Flatten(s.readyQueue) == []
    ensures var c := s.currentThread.value;
            var r := BlockOnEach(s, objects, waitAll);
              c in r.threadData && r.threadData[c].waitObjects == s.threadData[c].waitObjects + objects
    decreases |objects|
  {
    if objects != [] {
      var c := s.currentThread.value;
      var s1 := BlockOn(s, objects[0], waitAll);
      BlockOnAlone(s, objects[0], waitAll);
      BlockAloneWaitsOnAll(s1, objects[1..], waitAll);
      AppendHead(s.threadData[c].waitObjects, objects);
    }
  }

  /** With nothing else ready and at least one object, the caller ends in
      WAIT_SYNC, asking for output, with the caller's wait-all flag. */
  lemma {:induction false} BlockAloneSleeps(s: PS.Scheduler, objects: seq<ObjId>, waitAll: bool)
    requires Running(s) && TQ.Flatten(s.readyQueue) == [] && objects != []
    ensures var c := s.currentThread.value;
            var r := BlockOnEach(s, objects, waitAll);
              && c in r.threadData && r.threadData[c].status == WaitSync
              && r.threadData[c].waitSetOutput && r.threadData[c].waitAll == waitAll
    decreases |objects|
  {
    var s1 := BlockOn(s, objects[0], waitAll);
    BlockOnAlone(s, objects[0], waitAll);
    if objects[1..] != [] {
      BlockAloneSleeps(s1, objects[1..], waitAll);
    }
  }

  /** With nothing else ready, the caller joins the waiters of every object. */
  lemma {:induction false} BlockAloneJoinsAll(s: PS.Scheduler, objects: seq<ObjId>, waitAll: bool, o: ObjId)
    requires Running(s) && TQ.Flatten(s.readyQueue) == [] && o in objects
    ensures s.currentThread.value in Waiters(BlockOnEach(s, objects, waitAll), o)
    decreases |objects|
  {
    var s1 := BlockOn(s, objects[0], waitAll);
    BlockOnAlone(s, objects[0], waitAll);
    if o == objects[0] {
      BlockOnEachKeepsWaiters(s1, objects[1..], waitAll, o, s.currentThread.value);
    } else {
      InTail(objects, o);
      BlockAloneJoinsAll(s1, objects[1..], waitAll, o);
    }
  }

  /** The acquire loop of WaitSynchronizationN from position i. Each object
      is checked at the moment the loop reaches it, after the acquisitions
      before it, and acquired when available; for wait-any the loop stops
      after the first. */
  function AcquireLoop(k: System, handles: seq<Handle>, i: nat, waitAll: bool): (r: System)
    requires Valid(k) && AllResolve(k, handles) && i <= |handles|
    ensures Valid(r)
    ensures r.sched.(effects := k.sched.effects) == k.sched && k.sched.effects <= r.sched.effects
    ensures r.table == k.table && r.memory == k.memory && r.singleUse == k.singleUse
    ensures k.busy <= r.busy <= k.busy + k.singleUse
    ensures !waitAll && FirstAvailable(k, handles, i).None? ==> r == k
    ensures !waitAll && FirstAvailable(k, handles, i).Some? ==> r == Acquire(k, handles[FirstAvailable(k, handles, i).value])
    decreases |handles| - i
  {
    if i == |handles| then k
    else if !ShouldWait(k, handles[i]) then
      var k' := Acquire(k, handles[i]);
      if !waitAll then k' else AcquireLoop(k', handles, i + 1, waitAll)
    else
      AcquireLoop(k, handles, i + 1, waitAll)
  }

  /** Wait-all with every object from position i on available, and no
      single-use object named twice, acquires all of them in order. */
  lemma {:induction false} AcquireLoopTakesAll(k: System, handles: seq<Handle>, i: nat)
    requires Valid(k) && AllResolve(k, handles) && i <= |handles|
    requires forall j :: i <= j < |handles| ==> !ShouldWait(k, handles[j])
    requires SingleUseNamedOnce(k, handles, i)
    ensures AcquireLoop(k, handles, i, true).sched.effects == k.sched.effects + Acquisitions(ObjectsOf(k, handles)[i..])
    decreases |handles| - i
  {
    if i < |handles| {
      var k' := Acquire(k, handles[i]);
      var objects := ObjectsOf(k, handles);
      assert && Valid(k') && AllResolve(k', handles) && ObjectsOf(k', handles) == objects
             && (forall j :: i + 1 <= j < |handles| ==> !ShouldWait(k', handles[j]))
             && SingleUseNamedOnce(k', handles, i + 1)
             && k'.sched.effects == k.sched.effects + [PS.Acquired(objects[i])] by {
        AcquireKeepsOthers(k, handles, i);
      }
      AcquireLoopTakesAll(k', handles, i + 1);
      AcquireLoopStep(k, handles, i);
      var rest := Acquisitions(objects[i + 1..]);
      assert Acquisitions(objects[i..]) == [PS.Acquired(objects[i])] + rest by {
        AcquisitionsCons(objects[i..]);
        assert objects[i..][1..] == objects[i + 1..];
      }
      LogAppend(k.sched.effects, PS.Acquired(objects[i]), rest);
    }
  }

  /** From position i on, no single-use object is named by two handles, so
      acquiring one cannot make a later handle unavailable. */
  predicate SingleUseNamedOnce(k: System, handles: seq<Handle>, i: nat)
    requires AllResolve(k, handles)
  {
    forall a, b ::
      && i <= a < b < |handles|
      && k.table[handles[a]].WaitableObject? && k.table[handles[b]].WaitableObject?
      && k.table[handles[a]].waitable in k.singleUse
      ==> k.table[handles[b]].waitable != k.table[handles[a]].waitable
  }

  /** Acquiring the object at position i leaves every later handle as
      available as it was, when no single-use object is named twice. */
  lemma AcquireKeepsOthers(k: System, handles: seq<Handle>, i: nat)
    requires Valid(k) && AllResolve(k, handles) && i < |handles|
    ensures var k' := Acquire(k, handles[i]);
            && ObjectsOf(k', handles) == ObjectsOf(k, handles)
            && (SingleUseNamedOnce(k, handles, i) ==>
                  && SingleUseNamedOnce(k', handles, i + 1)
                  && forall j :: i < j < |handles| ==> (ShouldWait(k', handles[j]) <==> ShouldWait(k, handles[j])))
  {
    var k' := Acquire(k, handles[i]);
    assert ObjectsOf(k', handles) == ObjectsOf(k, handles);
    if SingleUseNamedOnce(k, handles, i) {
      forall j | i < j < |handles|
        ensures ShouldWait(k', handles[j]) <==> ShouldWait(k, handles[j])
      {
        Kernel.AcquireConsumesSingleUse(k, handles[i], handles[j]);
      }
    }
  }

  /** Acquisition effects, one per object, in order. */
  function Acquisitions(objects: seq<ObjId>): (r: seq<PS.Effect>)
    ensures |r| == |objects|
    ensures forall j :: 0 <= j < |objects| ==> r[j] == PS.Acquired(objects[j])
  {
    if objects == [] then [] else [PS.Acquired(objects[0])] + Acquisitions(objects[1..])
  }

  /** An available object is acquired and the wait-all loop goes on from
      the next position in the state that acquisition leaves. */
  lemma AcquireLoopStep(k: System, handles: seq<Handle>, i: nat)
    requires Valid(k) && AllResolve(k, handles) && i < |handles| && !ShouldWait(k, handles[i])
    ensures AcquireLoop(k, handles, i, true) == AcquireLoop(Acquire(k, handles[i]), handles, i + 1, true)
  {
  }

  lemma LogAppend(log: seq<PS.Effect>, e: PS.Effect, rest: seq<PS.Effect>)
    ensures log + [e] + rest == log + ([e] + rest)
  {
  }

  lemma AcquisitionsCons(objects: seq<ObjId>)
    requires objects != []
    ensures Acquisitions(objects) == [PS.Acquired(objects[0])] + Acquisitions(objects[1..])
  {
  }

  /** A wait-all naming one available single-use object twice acquires it
      once: the loop's second check finds it taken. */
  lemma WaitAllTakesSingleUseOnce(k: System, h: Handle)
    requires Valid(k) && Resolves(k, h) && k.table[h].WaitableObject?
    requires k.table[h].waitable in k.singleUse && k.table[h].waitable !in k.busy
    ensures AcquireLoop(k, [h, h], 0, true).sched.effects == k.sched.effects + [PS.Acquired(k.table[h].waitable)]
  {
    var hs := [h, h];
    var k' := Acquire(k, h);
    Kernel.AcquireConsumesSingleUse(k, h, h);
    assert hs[0] == h && hs[1] == h;
    assert AcquireLoop(k', hs, 1, true) == AcquireLoop(k', hs, 2, true) == k';
    assert AcquireLoop(k, hs, 0, true) == AcquireLoop(k', hs, 1, true);
  }

  /** The blocking path of WaitSynchronizationN: the blocking loop over
      the objects, then a timeout for whichever thread is current. */
  function BlockAll(k: System, objects: seq<ObjId>, waitAll: bool, nanoseconds: int): (r: System)
    requires Valid(k) && S64(nanoseconds)
    ensures Valid(r)
    ensures r.table == k.table && r.busy == k.busy && r.memory == k.memory
    ensures var s1 := BlockOnEach(k.sched, objects, waitAll);
              && r.sched.waiters == s1.waiters && r.sched.threadData == s1.threadData
              && r.sched.currentThread == s1.currentThread
  {
    var s1 := BlockOnEach(k.sched, objects, waitAll);
    var s2 := PS.WakeThreadAfterDelay(s1, s1.currentThread.value, nanoseconds);
    WithScheduler(k, s2)
  }

  /** WaitSynchronizationN past its argument checks, for a non-empty list
      of handles: the scan decides, then either the blocking path or the
      acquire loop runs. */
  function WaitOnHandles(k: System, hs: seq<Handle>, waitAll: bool, nanoseconds: int): (r: Reply)
    requires Valid(k) && S64(nanoseconds) && hs != []
    ensures Valid(r.system)
    ensures r.system.table == k.table && r.system.memory == k.memory && r.system.singleUse == k.singleUse
    ensures k.busy <= r.system.busy <= k.busy + k.singleUse
    ensures !AllResolve(k, hs) <==> r == Reply(k, InvalidHandle, None)
    ensures AllResolve(k, hs) ==> r.code == Success || r.code == Sentinel
    ensures r.code == Success <==> r.out.Some?
  {
    match ScanHandles(k, hs, 0, waitAll, !waitAll, false, 0)
    case None => Reply(k, InvalidHandle, None)
    case Some((waitThread, index)) =>
      if waitThread then Reply(BlockAll(k, ObjectsOf(k, hs), waitAll, nanoseconds), Sentinel, None)
      else Reply(AcquireLoop(k, hs, 0, waitAll), Success, Some(if waitAll then 0 else index))
  }

  /** WaitSynchronizationN. `handles` is None for a null array; otherwise
      its first `count` entries are the handles. */
  function WaitSynchronizationN(k: System, handles: Option<seq<Handle>>, count: int, waitAll: bool, nanoseconds: int): (r: Reply)
    requires Valid(k) && S64(nanoseconds)
    requires handles.Some? && count >= 0 ==> count <= |handles.value|
    ensures Valid(r.system)
    ensures r.system.table == k.table && r.system.memory == k.memory && r.system.singleUse == k.singleUse
    ensures k.busy <= r.system.busy <= k.busy + k.singleUse
    ensures handles.None? ==> r == Reply(k, InvalidPointer, None)
    ensures handles.Some? && count < 0 ==> r == Reply(k, OutOfRange, None)
    ensures handles.Some? && count >= 0 && !AllResolve(k, handles.value[..count]) ==> r == Reply(k, InvalidHandle, None)
    ensures r.code == Success || r.code == Sentinel || r.system == k
    ensures r.code == Success <==> r.out.Some?
  {
    if handles.None? then Reply(k, InvalidPointer, None)
    else if count < 0 then Reply(k, OutOfRange, None)
    else
      if count != 0 then WaitOnHandles(k, handles.value[..count], waitAll, nanoseconds)
      else if !waitAll then
        var s1 := PS.WaitCurrentThreadWaitSynchronization(k.sched, [], true, waitAll);
        var s2 := PS.WakeThreadAfterDelay(s1, s1.currentThread.value, nanoseconds);
        Reply(WithScheduler(k, s2), Sentinel, None)
      else
        Reply(k, Success, Some(0))
  }

  /** With a positive count, WaitSynchronizationN works on the first
      `count` handles. */
  lemma WaitNWithHandles(k: System, hs: seq<Handle>, count: int, waitAll: bool, nanoseconds: int)
    requires Valid(k) && S64(nanoseconds) && 0 < count <= |hs|
    ensures WaitSynchronizationN(k, Some(hs), count, waitAll, nanoseconds) == WaitOnHandles(k, hs[..count], waitAll, nanoseconds)
  {
  }

  /** Whether a wait on resolved handles must block: wait-all blocks when
      some object is unavailable, wait-any when every object is. */
  predicate Blocks(k: System, hs: seq<Handle>, waitAll: bool)
    requires Valid(k) && AllResolve(k, hs)
  {
    if waitAll then exists j :: 0 <= j < |hs| && ShouldWait(k, hs[j])
    else forall j :: 0 <= j < |hs| ==> ShouldWait(k, hs[j])
  }

  /** When every handle resolves, the call blocks exactly when Blocks says
      so, and otherwise succeeds. */
  lemma WaitBlocksIff(k: System, hs: seq<Handle>, waitAll: bool, nanoseconds: int)
    requires Valid(k) && S64(nanoseconds) && hs != [] && AllResolve(k, hs)
    ensures WaitOnHandles(k, hs, waitAll, nanoseconds).code == (if Blocks(k, hs, waitAll) then Sentinel else Success)
  {
  }

  /** Wait-all with every object available, and no single-use object named
      twice, acquires all of them, in handle order, and reports 0. */
  lemma WaitAllAcquiresEvery(k: System, hs: seq<Handle>, nanoseconds: int)
    requires Valid(k) && S64(nanoseconds) && hs != [] && AllResolve(k, hs)
    requires forall j :: 0 <= j < |hs| ==> !ShouldWait(k, hs[j])
    requires SingleUseNamedOnce(k, hs, 0)
    ensures var r := WaitOnHandles(k, hs, true, nanoseconds);
              && r.code == Success && r.out == Some(0)
              && r.system.sched == k.sched.(effects := k.sched.effects + Acquisitions(ObjectsOf(k, hs)))
  {
    AcquireLoopTakesAll(k, hs, 0);
    assert ObjectsOf(k, hs)[0..] == ObjectsOf(k, hs);
  }

  /** Wait-any with some object available acquires exactly the first
      available one and reports its position. */
  lemma WaitAnyAcquiresFirst(k: System, hs: seq<Handle>, nanoseconds: int)
    requires Valid(k) && S64(nanoseconds) && hs != [] && AllResolve(k, hs)
    requires FirstAvailable(k, hs, 0).Some?
    ensures var j := FirstAvailable(k, hs, 0).value;
            var r := WaitOnHandles(k, hs, false, nanoseconds);
              && r.code == Success && r.out == Some(j)
              && r.system == Kernel.Acquire(k, hs[j])
              && r.system.sched == k.sched.(effects := k.sched.effects + [PS.Acquired(k.table[hs[j]].waitable)])
  {
  }

  /** A call that must block takes the blocking path over the objects
      named, and writes no output. */
  lemma WaitBlocked(k: System, hs: seq<Handle>, waitAll: bool, nanoseconds: int)
    requires Valid(k) && S64(nanoseconds) && hs != [] && AllResolve(k, hs)
    requires Blocks(k, hs, waitAll)
    ensures WaitOnHandles(k, hs, waitAll, nanoseconds) == Reply(BlockAll(k, ObjectsOf(k, hs), waitAll, nanoseconds), Sentinel, None)
  {
  }

  /** The blocking path runs one reschedule per object, logs only context
      switches, and then schedules a wakeup for the thread current at the
      end unless the timeout is -1. */
  lemma BlockAllTimeout(k: System, objects: seq<ObjId>, waitAll: bool, nanoseconds: int)
    requires Valid(k) && S64(nanoseconds)
    ensures var r := BlockAll(k, objects, waitAll, nanoseconds).sched;
              && r.ticks == k.sched.ticks + PS.RESCHEDULE_TICKS * |objects|
              && (nanoseconds == -1 ==> PS.SwitchEffectsOnly(k.sched.effects, r.effects))
              && (nanoseconds != -1 ==>
                    && |r.effects| > 0
                    && PS.SwitchEffectsOnly(k.sched.effects, r.effects[..|r.effects| - 1])
                    && r.effects[|r.effects| - 1] == PS.WakeupScheduled(r.currentThread.value, PS.WakeupDelay(nanoseconds)))
  {
    var s1 := BlockOnEach(k.sched, objects, waitAll);
    BlockOnEachSwitches(k.sched, objects, waitAll);
    if nanoseconds != -1 {
      var r := BlockAll(k, objects, waitAll, nanoseconds).sched;
      assert r.effects[..|r.effects| - 1] == s1.effects;
    }
  }

  /** The blocking path adds a waiter to every object named; with nothing
      else ready, the caller is that waiter everywhere. */
  lemma BlockAllFillsWaiters(k: System, objects: seq<ObjId>, waitAll: bool, nanoseconds: int, o: ObjId)
    requires Valid(k) && S64(nanoseconds) && o in objects
    ensures Waiters(BlockAll(k, objects, waitAll, nanoseconds).sched, o) != {}
    ensures TQ.Flatten(k.sched.readyQueue) == [] ==>
              k.sched.currentThread.value in Waiters(BlockAll(k, objects, waitAll, nanoseconds).sched, o)
  {
    var s1 := BlockOnEach(k.sched, objects, waitAll);
    assert Waiters(BlockAll(k, objects, waitAll, nanoseconds).sched, o) == Waiters(s1, o);
    BlockOnEachFillsWaiters(k.sched, objects, waitAll, o);
    if TQ.Flatten(k.sched.readyQueue) == [] {
      BlockAloneJoinsAll(k.sched, objects, waitAll, o);
    }
  }

  /** The blocking path changes the waiters of no object it does not
      name. */
  lemma BlockAllLeavesOthers(k: System, objects: seq<ObjId>, waitAll: bool, nanoseconds: int, o: ObjId)
    requires Valid(k) && S64(nanoseconds) && o !in objects
    ensures Waiters(BlockAll(k, objects, waitAll, nanoseconds).sched, o) == Waiters(k.sched, o)
  {
    var s1 := BlockOnEach(k.sched, objects, waitAll);
    assert Waiters(BlockAll(k, objects, waitAll, nanoseconds).sched, o) == Waiters(s1, o);
    BlockOnEachLeavesOthers(k.sched, objects, waitAll, o);
  }

  /** With nothing else ready, the blocking path over at least one object
      leaves the caller current, in WAIT_SYNC on every object in order,
      asking for output, with its wait-all flag. */
  lemma BlockAllAloneBlocksCaller(k: System, objects: seq<ObjId>, waitAll: bool, nanoseconds: int)
    requires Valid(k) && S64(nanoseconds) && objects != [] && TQ.Flatten(k.sched.readyQueue) == []
    ensures var r := BlockAll(k, objects, waitAll, nanoseconds).sched;
            var c := k.sched.currentThread.value;
              && r.currentThread == Some(c)
              && c in r.threadData
              && r.threadData[c].status == WaitSync
              && r.threadData[c].waitObjects == k.sched.threadData[c].waitObjects + objects
              && r.threadData[c].waitSetOutput && r.threadData[c].waitAll == waitAll
  {
    BlockAloneKeepsCaller(k.sched, objects, waitAll);
    BlockAloneWaitsOnAll(k.sched, objects, waitAll);
    BlockAloneSleeps(k.sched, objects, waitAll);
  }

  /** With no handles, wait-all succeeds at once with output 0 and changes
      nothing; wait-any blocks the caller on no object at all. */
  lemma WaitNNoHandles(k: System, hs: seq<Handle>, waitAll: bool, nanoseconds: int)
    requires Valid(k) && S64(nanoseconds)
    ensures var r := WaitSynchronizationN(k, Some(hs), 0, waitAll, nanoseconds);
              && (waitAll ==> r == Reply(k, Success, Some(0)))
              && (!waitAll ==> r.code == Sentinel && r.out.None?)
              && (!waitAll && TQ.Flatten(k.sched.readyQueue) == [] ==>
                    var c := k.sched.currentThread.value;
                      && r.system.sched.currentThread == Some(c)
                      && c in r.system.sched.threadData
                      && r.system.sched.threadData[c].status == WaitSync
                      && r.system.sched.threadData[c].waitObjects == k.sched.threadData[c].waitObjects
                      && r.system.sched.threadData[c].waitSetOutput)
  {
    if !waitAll && TQ.Flatten(k.sched.readyQueue) == [] {
      var c := k.sched.currentThread.value;
      assert k.sched.threadData[c].waitObjects + [] == k.sched.threadData[c].waitObjects;
    }
  }

  // ---------------------------------------------------------------------
  // Thread priority, sleep, arbitration

  /** GetThreadPriority: a handle that names no thread is rejected and
      nothing changes; otherwise the thread's current priority is written
      out. */
  function GetThreadPriority(k: System, handle: Handle): (r: Reply)
    requires Valid(k)
    ensures r.system == k
    ensures GetThread(k.table, handle).None? <==> r.code == InvalidHandle
    ensures r.code == InvalidHandle || r.code == Success
    ensures r.code == Success <==> r.out.Some?
    ensures r.out.Some? ==> PS.PriorityInRange(r.out.value)
  {
    match GetThread(k.table, handle)
    case None => Reply(k, InvalidHandle, None)
    case Some(t) => Reply(k, Success, Some(PS.GetPriority(k.sched, t)))
  }

  /** SetThreadPriority: a handle that names no thread is rejected and
      nothing changes; otherwise the scheduler's SetPriority runs on the
      thread and the call succeeds without output. */
  function SetThreadPriority(k: System, handle: Handle, priority: int): (r: Reply)
    requires Valid(k) && S32_MIN <= priority <= S32_MAX
    ensures Valid(r.system) && r.out.None?
    ensures GetThread(k.table, handle).None? <==> r == Reply(k, InvalidHandle, None)
    ensures GetThread(k.table, handle).Some? ==> r.code == Success
    ensures r.system.table == k.table && r.system.busy == k.busy && r.system.memory == k.memory
    ensures r.system.sched.currentThread == k.sched.currentThread && r.system.sched.effects == k.sched.effects
  {
    match GetThread(k.table, handle)
    case None => Reply(k, InvalidHandle, None)
    case Some(t) => Reply(WithScheduler(k, PS.SetPriority(k.sched, t, priority)), Success, None)
  }

  /** Reading a priority back after setting it gives the clamped value. */
  lemma SetThenGetPriority(k: System, handle: Handle, priority: int)
    requires Valid(k) && S32_MIN <= priority <= S32_MAX && GetThread(k.table, handle).Some?
    ensures GetThreadPriority(SetThreadPriority(k, handle, priority).system, handle) ==
              Reply(SetThreadPriority(k, handle, priority).system, Success, Some(PS.ClampPriority(priority)))
  {
  }

  /** Setting a thread's priority to the one it already has changes
      nothing, so setting the same priority twice is the same as once. */
  lemma SetPriorityIdempotent(k: System, handle: Handle, priority: int)
    requires Valid(k) && S32_MIN <= priority <= S32_MAX
    ensures var once := SetThreadPriority(k, handle, priority);
              SetThreadPriority(once.system, handle, priority) == once
  {
    var once := SetThreadPriority(k, handle, priority);
    if GetThread(k.table, handle).Some? {
      var t := GetThread(k.table, handle).value;
      var s1 := once.system.sched;
      var s2 := PS.SetPriority(s1, t, priority);
      assert s2.readyQueue == s1.readyQueue;
      assert s2.threadData == s1.threadData by {
        assert forall u :: u in s2.threadData <==> u in s1.threadData;
        assert forall u :: u in s2.threadData ==> s2.threadData[u] == s1.threadData[u];
      }
    }
  }

  /** Setting one thread's priority leaves every other thread's priority
      as it was. */
  lemma SetPriorityLeavesOthers(k: System, handle: Handle, priority: int, other: Handle)
    requires Valid(k) && S32_MIN <= priority <= S32_MAX
    requires GetThread(k.table, other).Some? && GetThread(k.table, other) != GetThread(k.table, handle)
    ensures GetThreadPriority(SetThreadPriority(k, handle, priority).system, other) == 
              GetThreadPriority(k, other).(system := SetThreadPriority(k, handle, priority).system)
  {
  }

  /** SleepThread: the caller goes to WAIT_SLEEP and the core reschedules;
      the wakeup is then scheduled for whichever thread is current. The
      call writes nothing back. */
  function SleepThread(k: System, nanoseconds: int): (r: System)
    requires Valid(k) && S64(nanoseconds)
    ensures Valid(r)
    ensures r.table == k.table && r.busy == k.busy && r.memory == k.memory
    ensures r.sched.ticks == k.sched.ticks + PS.RESCHEDULE_TICKS
  {
    var s1 := PS.WaitCurrentThreadSleep(k.sched);
    var s2 := PS.WakeThreadAfterDelay(s1, s1.currentThread.value, nanoseconds);
    WithScheduler(k, s2)
  }

  /** Sleeping forever only switches threads; any other timeout also
      schedules one wakeup, for the thread current after the switch. */
  lemma SleepSchedulesWakeup(k: System, nanoseconds: int)
    requires Valid(k) && S64(nanoseconds)
    ensures var r := SleepThread(k, nanoseconds).sched;
            nanoseconds == -1 ==> PS.SwitchEffectsOnly(k.sched.effects, r.effects)
    ensures var r := SleepThread(k, nanoseconds).sched;
            nanoseconds != -1 ==>
              && |r.effects| > 0
              && PS.SwitchEffectsOnly(k.sched.effects, r.effects[..|r.effects| - 1])
              && r.effects[|r.effects| - 1] == PS.WakeupScheduled(r.currentThread.value, PS.WakeupDelay(nanoseconds))
  {
    var s1 := PS.WaitCurrentThreadSleep(k.sched);
    var s2 := PS.WakeThreadAfterDelay(s1, s1.currentThread.value, nanoseconds);
    assert SleepThread(k, nanoseconds).sched == s2;
    assert nanoseconds != -1 ==> s2.effects[..|s2.effects| - 1] == s1.effects;
  }

  /** With nothing else ready, the sleeper stays current in WAIT_SLEEP and
      its own wakeup is scheduled. */
  lemma SleepAlone(k: System, nanoseconds: int)
    requires Valid(k) && S64(nanoseconds) && TQ.Flatten(k.sched.readyQueue) == []
    ensures var r := SleepThread(k, nanoseconds).sched;
            var c := k.sched.currentThread.value;
              && r.currentThread == Some(c)
              && r.threadData[c] == k.sched.threadData[c].(status := WaitSleep)
              && r.readyQueue == k.sched.readyQueue
  {
  }

  /** As written, when another thread is ready the sleeper is switched out
      and, through SwitchContext, made READY again at once; the wakeup is
      scheduled for the thread that took over rather than for the sleeper. */
  lemma SleepRequeuesSleeper(k: System, nanoseconds: int)
    requires Valid(k) && S64(nanoseconds) && nanoseconds != -1
    requires PS.CurrentIsRunning(k.sched) && TQ.Flatten(k.sched.readyQueue) != []
    ensures var r := SleepThread(k, nanoseconds).sched;
            var c := k.sched.currentThread.value;
            var other := TQ.Flatten(k.sched.readyQueue)[0];
              && other != c
              && r.currentThread == Some(other)
              && r.threadData[c].status == Ready
              && r.effects[|r.effects| - 1] == PS.WakeupScheduled(other, PS.WakeupDelay(nanoseconds))
  {
    SleepSchedulesWakeup(k, nanoseconds);
    AddressArbiter.FrontIsReady(k.sched);
  }

  /** The ArbitrateAddress system call: the u32 value register is read as
      s32, and the s64 timeout is passed on as u64. */
  function ArbitrateAddress(k: System, arbiter: Handle, address: VAddr, arbitrationType: U32, value: U32, nanoseconds: int): (r: Reply)
    requires Valid(k) && S64(nanoseconds)
    ensures Valid(r.system) && r.out.None?
    ensures r.system.table == k.table && r.system.busy == k.busy
    ensures r.code == InvalidHandle || r.code == InvalidEnumValue || r.code == Success
  {
    AddressArbiter.ArbitrateAddress(k, arbiter, arbitrationType, address, ToS32(value), S64ToU64(nanoseconds))
  }

  /** A timed wait with timeout -1 at the system-call boundary schedules no
      wakeup: -1 survives the s64 to u64 to s64 round trip. Any other
      timeout schedules one when the caller waits. */
  lemma ArbitrateForeverSchedulesNoWakeup(k: System, arbiter: Handle, address: VAddr, arbitrationType: U32, value: U32, nanoseconds: int)
    requires Valid(k) && S64(nanoseconds)
    ensures var r := ArbitrateAddress(k, arbiter, address, arbitrationType, value, nanoseconds).system;
              AddressArbiter.WakeupScheduled(k.sched.effects, r.sched.effects) <==>
                && IsArbiter(k.table, arbiter) && AddressArbiter.HasTimeout(arbitrationType)
                && AddressArbiter.ShouldWaitOn(k.memory, arbitrationType, address, ToS32(value))
                && nanoseconds != -1
  {
    TimeoutSurvivesU64(nanoseconds);
    AddressArbiter.WakeupIffTimedWait(k, arbiter, arbitrationType, address, ToS32(value), S64ToU64(nanoseconds));
  }

  /** The value register is compared as a signed number: 0xFFFFFFFF is -1,
      so a wait-if-less-than on a word holding 0 with that value does not
      wait. */
  lemma ValueIsSigned(k: System, arbiter: Handle, address: VAddr, nanoseconds: int)
    requires Valid(k) && S64(nanoseconds) && IsArbiter(k.table, arbiter) && Read32(k.memory, address) == 0
    ensures ArbitrateAddress(k, arbiter, address, AddressArbiter.WAIT_IF_LESS_THAN, 0xFFFF_FFFF, nanoseconds).system == k
  {
  }
}
