/** Shared vocabulary of the kernel model: optional values, guest-visible
    result codes, thread status, and the handle table that maps opaque
    handles to kernel objects. */
module Types {

  datatype Option<+T> = None | Some(value: T)

  /** A value or the result code that stopped its construction. */
  datatype Result<+T> = Ok(value: T) | Err(code: ResultCode)

  /** Identity of a guest thread object; the scheduler keys everything by it. */
  type Tid = nat

  /** Identity of a kernel object that threads can wait on. */
  type ObjId = nat

  type Handle = nat

  /** An unsigned 32-bit value held as a number. */
  type U32 = x: int | 0 <= x < 0x1_0000_0000

  /** A guest virtual address. */
  type VAddr = U32

  /** Guest-visible result codes, named by their error description.
      `Sentinel` is RESULT_INVALID (raw 0xDEADC0DE): "the resume path will
      write the real result later". */
  datatype ResultCode =
    | Success
    | Sentinel
    | InvalidHandle
    | InvalidPointer
    | OutOfRange
    | InvalidSize
    | InvalidAddress
    | InvalidEnumValue
    | Timeout
    | OutOfHandles

  const SENTINEL_RAW: bv32 := 0xDEADC0DE

  /** Raw register value of the Timeout result written on a timed-out wait:
      description Timeout (1022), module OS (6), summary StatusChanged (10),
      level Info (1) in the 3DS result-code layout. */
  const TIMEOUT_RAW: bv32 := 0x09401BFE

  datatype Status = Running | Ready | WaitSleep | WaitSync | WaitArb | Dormant | Dead

  /** Single-bit encoding of a status value (one bit per status). */
  function StatusBits(s: Status): (b: bv32)
    ensures b != 0 && b & (b - 1) == 0
  {
    match s
    case Running => 0x01
    case Ready => 0x02
    case WaitSleep => 0x04
    case WaitSync => 0x08
    case WaitArb => 0x10
    case Dormant => 0x20
    case Dead => 0x40
  }

  const THREADSTATUS_RUNNING: bv32 := 0x01
  const THREADSTATUS_READY: bv32 := 0x02
  const THREADSTATUS_WAIT: bv32 := 0x04 | 0x08 | 0x10
  const THREADSTATUS_DORMANT: bv32 := 0x20
  const THREADSTATUS_SUSPEND: bv32 := 0x80

  predicate IsRunning(bits: bv32) { bits & THREADSTATUS_RUNNING != 0 }
  predicate IsStopped(bits: bv32) { bits & THREADSTATUS_DORMANT != 0 }
  predicate IsReady(bits: bv32) { bits & THREADSTATUS_READY != 0 }
  predicate IsWaiting(bits: bv32) { bits & THREADSTATUS_WAIT != 0 }
  predicate IsSuspended(bits: bv32) { bits & THREADSTATUS_SUSPEND != 0 }

  /** The status predicates of ThreadState each pick out exactly the statuses
      their names promise, and the encoding loses no information. */
  lemma StatusPredicatesExact(s: Status, s': Status)
    ensures IsRunning(StatusBits(s)) <==> s == Running
    ensures IsReady(StatusBits(s)) <==> s == Ready
    ensures IsStopped(StatusBits(s)) <==> s == Dormant
    ensures IsWaiting(StatusBits(s)) <==> s in {WaitSleep, WaitSync, WaitArb}
    ensures !IsSuspended(StatusBits(s))
    ensures StatusBits(s) == StatusBits(s') ==> s == s'
  {
  }

  /** What a handle refers to. A thread handle carries both the thread and
      its identity as a wait object (Thread derives from WaitObject). */
  datatype KernelObject =
    | ThreadObject(thread: Tid, waitable: ObjId)
    | ArbiterObject
    | WaitableObject(waitable: ObjId)
    | OtherObject

  type HandleTable = map<Handle, KernelObject>

  /** g_handle_table.GetWaitObject: the wait object behind a handle, if any. */
  function GetWaitObject(table: HandleTable, h: Handle): (r: Option<ObjId>)
    ensures r.Some? <==> h in table && (table[h].ThreadObject? || table[h].WaitableObject?)
    ensures r.Some? ==> r.value == table[h].waitable
  {
    if h in table then
      match table[h]
      case ThreadObject(_, w) => Some(w)
      case WaitableObject(w) => Some(w)
      case _ => None
    else None
  }

  /** g_handle_table.Get<Thread>: the thread behind a handle, if any. */
  function GetThread(table: HandleTable, h: Handle): (r: Option<Tid>)
    ensures r.Some? <==> h in table && table[h].ThreadObject?
    ensures r.Some? ==> r.value == table[h].thread
  {
    if h in table && table[h].ThreadObject? then Some(table[h].thread) else None
  }

  /** g_handle_table.Get<AddressArbiter>: whether a handle names an arbiter. */
  predicate IsArbiter(table: HandleTable, h: Handle) {
    h in table && table[h].ArbiterObject?
  }
}
