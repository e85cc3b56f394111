/** What a system call works on: the scheduler, the handle table, the
    availability of the wait objects that are not threads, and guest memory
    as 32-bit words. Mutexes, semaphores, events and timers are not modelled
    one by one; each is a wait object that is either available or not, and
    acquiring one is a recorded effect. Some of them (`singleUse`: a mutex,
    a one-shot event, a semaphore with one count left) become unavailable
    when acquired. */
module Kernel {
  import opened Types
  import PS = PriorityScheduler
  import Threads

  datatype System = System(
    sched: PS.Scheduler,
    table: HandleTable,
    busy: set<ObjId>,
    singleUse: set<ObjId>,
    memory: map<VAddr, U32>)

  /** A system call's answer: the state afterwards, the result code, and the
      value written through the output pointer, if one was written. */
  datatype Reply = Reply(system: System, code: ResultCode, out: Option<int>)

  /** The state a system call runs in: a valid scheduler, a calling thread,
      and every thread a handle names known to the scheduler. */
  predicate Valid(k: System) {
    && PS.Valid(k.sched)
    && k.sched.currentThread.Some?
    && PS.HandlesRegistered(k.sched, k.table)
  }

  /** A scheduler operation that keeps thread_list keeps every handle's
      thread registered. */
  lemma StillRegistered(s: PS.Scheduler, r: PS.Scheduler, table: HandleTable)
    requires PS.Registry(s) && PS.Registry(r) && r.threadList == s.threadList
    requires PS.HandlesRegistered(s, table)
    ensures PS.HandlesRegistered(r, table)
  {
    forall h | h in table && table[h].ThreadObject?
      ensures table[h].thread in r.threadData
    {
      var t := table[h].thread;
      var i :| 0 <= i < |s.threadList| && s.threadList[i] == t;
      assert r.threadList[i] == t;
    }
  }

  /** Kernel state after a scheduler step that keeps thread_list. */
  function WithScheduler(k: System, s: PS.Scheduler): (r: System)
    requires Valid(k) && PS.Valid(s) && s.currentThread.Some? && s.threadList == k.sched.threadList
    ensures Valid(r)
    ensures r.sched == s && r.table == k.table && r.busy == k.busy && r.memory == k.memory
    ensures r.singleUse == k.singleUse
  {
    StillRegistered(k.sched, s, k.table);
    k.(sched := s)
  }

  /** The handle names an object threads can wait on. */
  predicate Resolves(k: System, h: Handle) {
    GetWaitObject(k.table, h).Some?
  }

  /** WaitObject::ShouldWait through a handle: a thread is waited on unless
      DORMANT (Thread::ShouldWait); any other wait object while it is
      unavailable. */
  predicate ShouldWait(k: System, h: Handle)
    requires PS.HandlesRegistered(k.sched, k.table) && Resolves(k, h)
  {
    match k.table[h]
    case ThreadObject(t, _) => Threads.ShouldWait(k.sched.threadData[t].status)
    case WaitableObject(w) => w in k.busy
  }

  /** WaitObject::Acquire through a handle: recorded as an effect; acquiring
      a thread that should still be waited on also trips its assertion, and
      acquiring a single-use object makes it unavailable. */
  function Acquire(k: System, h: Handle): (r: System)
    requires Valid(k) && Resolves(k, h)
    ensures Valid(r)
    ensures k.sched.effects + [PS.Acquired(k.table[h].waitable)] <= r.sched.effects
    ensures !ShouldWait(k, h) ==> r.sched.effects == k.sched.effects + [PS.Acquired(k.table[h].waitable)]
    ensures r.sched.(effects := k.sched.effects) == k.sched
    ensures r.table == k.table && r.memory == k.memory && r.singleUse == k.singleUse
    ensures forall o :: o != k.table[h].waitable ==> (o in r.busy <==> o in k.busy)
    ensures k.table[h].waitable in r.busy <==>
              k.table[h].waitable in k.busy || (k.table[h].WaitableObject? && k.table[h].waitable in k.singleUse)
  {
    var failed := if k.table[h].ThreadObject? && !Threads.Acquire(k.sched.threadData[k.table[h].thread].status)
                  then [PS.AssertionFailed(k.table[h].thread)] else [];
    var effects := k.sched.effects + [PS.Acquired(k.table[h].waitable)] + failed;
    var busy := if k.table[h].WaitableObject? && k.table[h].waitable in k.singleUse
                then k.busy + {k.table[h].waitable} else k.busy;
    PS.LogKeepsInvariant(k.sched, effects, None);
    k.(sched := k.sched.(effects := effects), busy := busy)
  }

  /** Once acquired, a single-use object has to be waited on, and any other
      object is exactly as available as before. */
  lemma AcquireConsumesSingleUse(k: System, h: Handle, h2: Handle)
    requires Valid(k) && Resolves(k, h) && Resolves(k, h2)
    ensures var r := Acquire(k, h);
            && (k.table[h].WaitableObject? && k.table[h].waitable in k.singleUse ==> ShouldWait(r, h))
            && (k.table[h2].waitable != k.table[h].waitable || !k.table[h2].WaitableObject? ==>
                  (ShouldWait(r, h2) <==> ShouldWait(k, h2)))
  {
  }

  /** The waiter list of a wait object; an object nobody waited on yet has
      an empty one. */
  function Waiters(s: PS.Scheduler, o: ObjId): set<Tid> {
    if o in s.waiters then s.waiters[o] else {}
  }

  /** WaitObject::AddWaitingThread: t joins the waiter list of o and no
      other list changes. */
  function AddWaitingThread(s: PS.Scheduler, o: ObjId, t: Tid): (r: PS.Scheduler)
    requires PS.Valid(s)
    ensures PS.Valid(r)
    ensures Waiters(r, o) == Waiters(s, o) + {t}
    ensures forall p :: p != o ==> Waiters(r, p) == Waiters(s, p)
    ensures r.(waiters := s.waiters) == s
  {
    var w := s.waiters[o := Waiters(s, o) + {t}];
    PS.WaitersKeepInvariant(s, w, None);
    s.(waiters := w)
  }

  /** Memory::Read32; a word never written reads as zero. */
  function Read32(memory: map<VAddr, U32>, address: VAddr): U32 {
    if address in memory then memory[address] else 0
  }

  /** Memory::Write32. */
  function Write32(memory: map<VAddr, U32>, address: VAddr, value: U32): (r: map<VAddr, U32>)
    ensures Read32(r, address) == value
    ensures forall a :: a != address ==> Read32(r, a) == Read32(memory, a)
  {
    memory[address := value]
  }

  const S32_MIN: int := -0x8000_0000
  const S32_MAX: int := 0x7FFF_FFFF

  /** A word read as s32 (two's complement). */
  function ToS32(x: U32): (v: int)
    ensures S32_MIN <= v <= S32_MAX
    ensures v >= 0 <==> x <= S32_MAX
  {
    if x <= S32_MAX then x else x - 0x1_0000_0000
  }

  /** An s32 stored as a word. */
  function FromS32(v: int): U32
    requires S32_MIN <= v <= S32_MAX
  {
    if v >= 0 then v else v + 0x1_0000_0000
  }

  /** Reading back a stored s32 gives the value stored, and storing a word
      read as s32 gives the word back. */
  lemma S32RoundTrip(v: int, x: U32)
    requires S32_MIN <= v <= S32_MAX
    ensures ToS32(FromS32(v)) == v
    ensures FromS32(ToS32(x)) == x
  {
  }

  /** `word - 1` in u32 arithmetic: zero wraps round to 0xFFFFFFFF. */
  function Decrement(x: U32): (r: U32)
    ensures x > 0 ==> r == x - 1
    ensures x == 0 ==> r == 0xFFFF_FFFF
  {
    (x + 0xFFFF_FFFF) % 0x1_0000_0000
  }

  const U64_LIMIT: nat := 0x1_0000_0000_0000_0000

  /** An s64 converted to u64 (the implicit conversion at a u64 parameter). */
  function S64ToU64(v: int): (u: nat)
    requires PS.S64_MIN <= v <= PS.S64_MAX
    ensures u < U64_LIMIT
  {
    if v >= 0 then v else v + U64_LIMIT
  }

  /** A u64 converted to s64. */
  function U64ToS64(u: nat): (v: int)
    requires u < U64_LIMIT
    ensures PS.S64_MIN <= v <= PS.S64_MAX
  {
    if u <= PS.S64_MAX then u else u - U64_LIMIT
  }

  /** Passing an s64 timeout through a u64 parameter and back to an s64 one
      loses nothing: -1 ("wait forever") is still -1 on the other side. */
  lemma TimeoutSurvivesU64(v: int)
    requires PS.S64_MIN <= v <= PS.S64_MAX
    ensures U64ToS64(S64ToU64(v)) == v
    ensures v == -1 ==> S64ToU64(v) == U64_LIMIT - 1
  {
  }
}
