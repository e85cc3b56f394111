/** The guest thread object: its saved CPU context, the arguments it was
    created with, the checks Thread::Create makes before a thread exists,
    and the thread's behaviour as a wait object. Scheduling state (status,
    priorities, wait record) lives in the scheduler, keyed by the thread. */
module Threads {
  import opened Types

  const CPU_REGISTER_COUNT: nat := 13
  const FPU_REGISTER_COUNT: nat := 32

  /** The saved ARM11 context: r0-r12, sp, lr, pc, cpsr, the VFP registers
      and control words, and the two fields the CPU engine uses to resume
      (reg_15 and mode). */
  datatype ThreadContext = ThreadContext(
    cpuRegisters: seq<bv32>,
    sp: bv32,
    lr: bv32,
    pc: bv32,
    cpsr: bv32,
    fpuRegisters: seq<bv32>,
    fpscr: bv32,
    fpexc: bv32,
    reg15: bv32,
    mode: bv32)

  predicate WellFormedContext(c: ThreadContext) {
    |c.cpuRegisters| == CPU_REGISTER_COUNT && |c.fpuRegisters| == FPU_REGISTER_COUNT
  }

  /** The user-supplied part of a thread plus its context. */
  datatype Thread = Thread(
    context: ThreadContext,
    entryPoint: bv32,
    stackTop: bv32,
    stackSize: bv32,
    processorId: int,
    name: string)

  /** Program status word of a fresh thread: user mode. */
  const CPSR_USER: bv32 := 0x1F

  /** The resume mode the CPU engine expects of a thread never run before. */
  const MODE_RESUME: bv32 := 8

  /** Thread::Create rejects stacks smaller than this. */
  const MIN_STACK_SIZE: bv32 := 0x200

  /** A context every word of which is zero, as memset leaves it. */
  function ZeroContext(): (c: ThreadContext)
    ensures WellFormedContext(c)
    ensures forall i :: 0 <= i < |c.cpuRegisters| ==> c.cpuRegisters[i] == 0
    ensures forall i :: 0 <= i < |c.fpuRegisters| ==> c.fpuRegisters[i] == 0
  {
    ThreadContext(seq(CPU_REGISTER_COUNT, _ => 0), 0, 0, 0, 0, seq(FPU_REGISTER_COUNT, _ => 0), 0, 0, 0, 0)
  }

  /** The context a thread starts from: r0 holds the argument, pc and reg_15
      the entry point, sp the stack top, user mode, resume mode 8, and every
      other word zero. */
  predicate StartContext(c: ThreadContext, arg: bv32, entryPoint: bv32, stackTop: bv32) {
    && WellFormedContext(c)
    && c.cpuRegisters[0] == arg
    && (forall i :: 1 <= i < CPU_REGISTER_COUNT ==> c.cpuRegisters[i] == 0)
    && c.sp == stackTop && c.lr == 0
    && c.pc == entryPoint && c.reg15 == entryPoint
    && c.cpsr == CPSR_USER && c.mode == MODE_RESUME
    && (forall i :: 0 <= i < FPU_REGISTER_COUNT ==> c.fpuRegisters[i] == 0)
    && c.fpscr == 0 && c.fpexc == 0
  }

  /** ResetThread: the whole context is rebuilt from the argument, the entry
      point and the stack top; nothing of the old context survives and no
      other field of the thread changes. */
  function ResetThread(t: Thread, arg: bv32): (r: Thread)
    ensures StartContext(r.context, arg, t.entryPoint, t.stackTop)
    ensures r.(context := t.context) == t
  {
    var z := ZeroContext();
    t.(context := z.(cpuRegisters := z.cpuRegisters[0 := arg], pc := t.entryPoint, reg15 := t.entryPoint,
                     sp := t.stackTop, cpsr := CPSR_USER, mode := MODE_RESUME))
  }

  /** The start context is determined by its three inputs. */
  lemma {:induction false} StartContextUnique(c: ThreadContext, d: ThreadContext, arg: bv32, entryPoint: bv32, stackTop: bv32)
    requires StartContext(c, arg, entryPoint, stackTop) && StartContext(d, arg, entryPoint, stackTop)
    ensures c == d
  {
    assert c.cpuRegisters == d.cpuRegisters by {
      assert forall i :: 0 <= i < CPU_REGISTER_COUNT ==> c.cpuRegisters[i] == d.cpuRegisters[i];
    }
    assert c.fpuRegisters == d.fpuRegisters by {
      assert forall i :: 0 <= i < FPU_REGISTER_COUNT ==> c.fpuRegisters[i] == d.fpuRegisters[i];
    }
  }

  /** Resetting forgets the history: two threads with the same entry point
      and stack top reset with the same argument end with the same context,
      whatever their contexts were before. */
  lemma ResetForgetsContext(t: Thread, u: Thread, arg: bv32)
    requires t.entryPoint == u.entryPoint && t.stackTop == u.stackTop
    ensures ResetThread(t, arg).context == ResetThread(u, arg).context
  {
    StartContextUnique(ResetThread(t, arg).context, ResetThread(u, arg).context, arg, t.entryPoint, t.stackTop);
  }

  /** What Thread::Create leaves behind: the new thread or the error code,
      and the handle table (which gains the thread's handle on success). */
  datatype Created = Created(result: Result<Thread>, table: HandleTable)

  /** Thread::Create. `mapped` stands for the addresses Memory::GetPointer
      resolves; `slot` is what g_handle_table.Create answers: the fresh
      handle, or the error code when the table is full. `self` and
      `waitable` are the new thread's identities as scheduler key and as
      wait object. */
  function Create(name: string, entryPoint: bv32, arg: bv32, processorId: int, stackTop: bv32, stackSize: bv32,
                  mapped: set<bv32>, table: HandleTable, slot: Result<Handle>, self: Tid, waitable: ObjId): (r: Created)
    requires slot.Ok? ==> slot.value !in table
    ensures r.result.Err? <==> r.table == table
    ensures stackSize < MIN_STACK_SIZE ==> r.result == Err(InvalidSize)
    ensures stackSize >= MIN_STACK_SIZE && entryPoint !in mapped ==> r.result == Err(InvalidAddress)
    ensures stackSize >= MIN_STACK_SIZE && entryPoint in mapped && slot.Err? ==> r.result == Err(slot.code)
    ensures r.result.Ok? ==>
              && stackSize >= MIN_STACK_SIZE && entryPoint in mapped && slot.Ok?
              && r.table.Keys == table.Keys + {slot.value}
              && r.table[slot.value] == ThreadObject(self, waitable)
              && (forall h :: h in table ==> r.table[h] == table[h])
              && r.result.value.entryPoint == entryPoint
              && r.result.value.stackTop == stackTop
              && r.result.value.stackSize == stackSize
              && r.result.value.processorId == processorId
              && r.result.value.name == name
              && StartContext(r.result.value.context, arg, entryPoint, stackTop)
  {
    if stackSize < MIN_STACK_SIZE then Created(Err(InvalidSize), table)
    else if entryPoint !in mapped then Created(Err(InvalidAddress), table)
    else match slot
      case Err(code) => Created(Err(code), table)
      case Ok(h) =>
        var blank := Thread(ZeroContext(), entryPoint, stackTop, stackSize, processorId, name);
        assert h in table[h := ThreadObject(self, waitable)];
        Created(Ok(ResetThread(blank, arg)), table[h := ThreadObject(self, waitable)])
  }

  /** Thread::ShouldWait: a thread is waited on until it is DORMANT. */
  predicate ShouldWait(status: Status) {
    status != Dormant
  }

  /** Thread::Acquire: nothing happens to the thread; the debug assertion
      fails when the thread should still be waited on. */
  function Acquire(status: Status): (assertionHolds: bool)
    ensures assertionHolds <==> IsStopped(StatusBits(status))
  {
    StatusPredicatesExact(status, status);
    !ShouldWait(status)
  }

  /** SetWaitSynchronizationResult: r0 takes the raw result code. */
  function SetWaitSynchronizationResult(t: Thread, raw: bv32): (r: Thread)
    requires WellFormedContext(t.context)
    ensures WellFormedContext(r.context) && r.context.cpuRegisters[0] == raw
    ensures forall i :: 1 <= i < CPU_REGISTER_COUNT ==> r.context.cpuRegisters[i] == t.context.cpuRegisters[i]
    ensures r.context.(cpuRegisters := t.context.cpuRegisters) == t.context
    ensures r.(context := t.context) == t
  {
    t.(context := t.context.(cpuRegisters := t.context.cpuRegisters[0 := raw]))
  }

  /** The s32 output as the 32-bit register holds it (two's complement). */
  function S32Bits(v: int): (b: bv32)
    requires -0x8000_0000 <= v < 0x8000_0000
  {
    (if v >= 0 then v else v + 0x1_0000_0000) as bv32
  }

  /** SetWaitSynchronizationOutput: r1 takes the output value. */
  function SetWaitSynchronizationOutput(t: Thread, output: int): (r: Thread)
    requires WellFormedContext(t.context) && -0x8000_0000 <= output < 0x8000_0000
    ensures WellFormedContext(r.context) && r.context.cpuRegisters[1] == S32Bits(output)
    ensures forall i :: 0 <= i < CPU_REGISTER_COUNT && i != 1 ==> r.context.cpuRegisters[i] == t.context.cpuRegisters[i]
    ensures r.context.(cpuRegisters := t.context.cpuRegisters) == t.context
    ensures r.(context := t.context) == t
  {
    t.(context := t.context.(cpuRegisters := t.context.cpuRegisters[1 := S32Bits(output)]))
  }

  /** The two writes touch different registers, so their order does not
      matter. */
  lemma ResultAndOutputCommute(t: Thread, raw: bv32, output: int)
    requires WellFormedContext(t.context) && -0x8000_0000 <= output < 0x8000_0000
    ensures SetWaitSynchronizationOutput(SetWaitSynchronizationResult(t, raw), output) ==
            SetWaitSynchronizationResult(SetWaitSynchronizationOutput(t, output), raw)
  {
    var a := SetWaitSynchronizationOutput(SetWaitSynchronizationResult(t, raw), output);
    var b := SetWaitSynchronizationResult(SetWaitSynchronizationOutput(t, output), raw);
    assert a.context.cpuRegisters == b.context.cpuRegisters;
  }

  /** The output -1 written on a timed-out WaitSynchronizationN is all ones
      in r1. */
  lemma TimeoutOutputAllOnes(t: Thread)
    requires WellFormedContext(t.context)
    ensures SetWaitSynchronizationOutput(t, -1).context.cpuRegisters[1] == 0xFFFF_FFFF
  {
  }
}
