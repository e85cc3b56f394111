/** The pad half of the HID shared-memory block: button presses and
    releases accumulate in a pending state, and each completed update writes
    one entry of the pad history ring with the new state, what was pressed
    and released since the previous entry, and the circle-pad position the
    four circle direction bits imply. */
module HidPad {
  import opened Types

  /** PadState.hex. The four circle-pad direction bits sit at bits 28-31
      (circle right, left, up, down). */
  type PadState = bv32

  const CIRCLE_RIGHT: PadState := 1 << 28
  const CIRCLE_LEFT: PadState := 1 << 29
  const CIRCLE_UP: PadState := 1 << 30
  const CIRCLE_DOWN: PadState := 1 << 31

  /** How far a circle direction key pushes the pad. */
  const CIRCLE_MAX: int := 0x9C

  /** Number of entries in the pad history ring. */
  const PAD_ENTRIES: nat := 8

  datatype PadEntry = PadEntry(
    currentState: PadState,
    deltaAdditions: PadState,
    deltaRemovals: PadState,
    circlePadX: int,
    circlePadY: int)

  datatype PadData = PadData(
    indexResetTicks: int,
    indexResetTicksPrevious: int,
    index: U32,
    currentState: PadState,
    entries: seq<PadEntry>)

  /** The module's own statics: the state the next update will publish, the
      ring position it will write, and the circle position it implies. */
  datatype Pending = Pending(nextState: PadState, nextIndex: nat, nextCircleX: int, nextCircleY: int)

  predicate Held(state: PadState, mask: PadState) {
    state & mask != 0
  }

  /** One circle axis from its two direction keys: fully to one edge, fully
      to the other, or centred, which is also what both keys together
      give. */
  function CircleAxis(negative: bool, positive: bool): (v: int)
    ensures v == -CIRCLE_MAX || v == 0 || v == CIRCLE_MAX
    ensures v == 0 <==> negative == positive
    ensures v > 0 <==> positive && !negative
    ensures v < 0 <==> negative && !positive
  {
    (if negative then -CIRCLE_MAX else 0) + (if positive then CIRCLE_MAX else 0)
  }

  /** The circle position the pending state's direction bits imply. */
  predicate CircleAgrees(p: Pending) {
    && p.nextCircleX == CircleAxis(Held(p.nextState, CIRCLE_LEFT), Held(p.nextState, CIRCLE_RIGHT))
    && p.nextCircleY == CircleAxis(Held(p.nextState, CIRCLE_DOWN), Held(p.nextState, CIRCLE_UP))
  }

  /** UpdateNextCirclePadState: recompute the circle position from the
      pending state's direction bits. */
  function UpdateNextCirclePadState(p: Pending): (r: Pending)
    ensures CircleAgrees(r)
    ensures r.nextState == p.nextState && r.nextIndex == p.nextIndex
    ensures CircleAgrees(p) ==> r == p
  {
    p.(nextCircleX := CircleAxis(Held(p.nextState, CIRCLE_LEFT), Held(p.nextState, CIRCLE_RIGHT)),
       nextCircleY := CircleAxis(Held(p.nextState, CIRCLE_DOWN), Held(p.nextState, CIRCLE_UP)))
  }

  /** PadButtonPress: the mask's bits become held and every bit already held
      stays held. */
  function PadButtonPress(p: Pending, mask: PadState): (r: Pending)
    ensures r.nextState & mask == mask
    ensures r.nextState & p.nextState == p.nextState
    ensures CircleAgrees(r) && r.nextIndex == p.nextIndex
  {
    UpdateNextCirclePadState(p.(nextState := p.nextState | mask))
  }

  /** A press sets no bit that was neither held nor in the mask. */
  lemma PressSetsOnlyMask(p: Pending, mask: PadState)
    ensures PadButtonPress(p, mask).nextState & !(p.nextState | mask) == 0
  {
  }

  /** PadButtonRelease: exactly the mask's bits are cleared. */
  function PadButtonRelease(p: Pending, mask: PadState): (r: Pending)
    ensures r.nextState & mask == 0
    ensures r.nextState & !mask == p.nextState & !mask
    ensures CircleAgrees(r) && r.nextIndex == p.nextIndex
  {
    UpdateNextCirclePadState(p.(nextState := p.nextState & !mask))
  }

  /** Pressing then releasing the same keys leaves the other keys as they
      were and the released ones up, whatever they were before. */
  lemma PressThenRelease(p: Pending, mask: PadState)
    ensures PadButtonRelease(PadButtonPress(p, mask), mask).nextState == p.nextState & !mask
  {
  }

  lemma OrAbsorbs(a: PadState, m: PadState)
    requires a & m == m
    ensures a | m == a
  {
  }

  /** Pressing keys that are all held already changes nothing. */
  lemma PressHeldIsNoOp(p: Pending, mask: PadState)
    requires p.nextState & mask == mask && CircleAgrees(p)
    ensures PadButtonPress(p, mask) == p
  {
    OrAbsorbs(p.nextState, mask);
    var q := p.(nextState := p.nextState | mask);
    assert q == p;
    assert PadButtonPress(p, mask) == UpdateNextCirclePadState(q);
    assert UpdateNextCirclePadState(p) == p;
  }

  /** Pressing the same keys twice is pressing them once. */
  lemma PressIdempotent(p: Pending, mask: PadState)
    ensures PadButtonPress(PadButtonPress(p, mask), mask) == PadButtonPress(p, mask)
  {
    PressHeldIsNoOp(PadButtonPress(p, mask), mask);
  }

  /** The history index before `index`, as the unsigned expression
      (index - 1) % size computes it: index 0 wraps round to 0xFFFFFFFF
      first. */
  function PreviousIndex(index: U32): (r: nat)
    ensures r < PAD_ENTRIES
  {
    ((index + 0xFFFF_FFFF) % 0x1_0000_0000) % PAD_ENTRIES
  }

  /** Since the ring size divides 2^32, the wrapped subtraction lands on the
      ring predecessor: entry 0 is preceded by the last entry. */
  lemma PreviousIndexIsPredecessor(index: U32)
    requires index < PAD_ENTRIES
    ensures PreviousIndex(index) == (index + PAD_ENTRIES - 1) % PAD_ENTRIES
    ensures index == 0 ==> PreviousIndex(index) == PAD_ENTRIES - 1
    ensures index > 0 ==> PreviousIndex(index) == index - 1
  {
  }

  /** The bits set in `now` and not in `before`. */
  function Additions(before: PadState, now: PadState): (r: PadState)
    ensures r & before == 0
  {
    (now ^ before) & now
  }

  /** The bits set in `before` and not in `now`. */
  function Removals(before: PadState, now: PadState): (r: PadState)
    ensures r & now == 0
  {
    (now ^ before) & before
  }

  /** The deltas are disjoint. */
  lemma DeltasDisjoint(before: PadState, now: PadState)
    ensures Additions(before, now) & Removals(before, now) == 0
  {
  }

  /** Clearing the removals from the old state and setting the additions
      gives the new state. */
  lemma DeltasReconstruct(before: PadState, now: PadState)
    ensures (before & !Removals(before, now)) | Additions(before, now) == now
  {
  }

  /** Together the deltas are exactly the changed bits. */
  lemma DeltasCoverChanges(before: PadState, now: PadState)
    ensures Additions(before, now) | Removals(before, now) == now ^ before
  {
  }

  predicate WellFormed(d: PadData) {
    |d.entries| == PAD_ENTRIES && d.index < PAD_ENTRIES
  }

  /** PadUpdateComplete: the pending ring position becomes the published
      index and advances round the ring; the entry at that index (and no
      other) is rewritten with the pending state, the deltas against the
      previous entry, and the circle position; the reset-tick pair rolls
      over only when entry 0 was written. `ticks` is the CPU tick count at
      the time. */
  function PadUpdateComplete(p: Pending, d: PadData, ticks: int): (r: (Pending, PadData))
    requires p.nextIndex < PAD_ENTRIES && |d.entries| == PAD_ENTRIES
    ensures var (p2, d2) := r;
              && WellFormed(d2) && p2.nextIndex < PAD_ENTRIES
              && d2.index == p.nextIndex
              && p2.nextIndex == (p.nextIndex + 1) % PAD_ENTRIES
              && p2.nextState == p.nextState && p2.nextCircleX == p.nextCircleX && p2.nextCircleY == p.nextCircleY
              && d2.currentState == p.nextState
    ensures var (_, d2) := r;
            var old_state := d.entries[PreviousIndex(p.nextIndex)].currentState;
              && d2.entries[d2.index] == PadEntry(p.nextState, Additions(old_state, p.nextState), Removals(old_state, p.nextState),
                                                 p.nextCircleX, p.nextCircleY)
              && (forall i :: 0 <= i < PAD_ENTRIES && i != d2.index ==> d2.entries[i] == d.entries[i])
    ensures var (_, d2) := r;
              && (d2.index == 0 ==> d2.indexResetTicksPrevious == d.indexResetTicks && d2.indexResetTicks == ticks)
              && (d2.index != 0 ==> d2.indexResetTicksPrevious == d.indexResetTicksPrevious && d2.indexResetTicks == d.indexResetTicks)
  {
    var index := p.nextIndex;
    var p2 := p.(nextIndex := (p.nextIndex + 1) % PAD_ENTRIES);
    var old_state := d.entries[PreviousIndex(index)].currentState;
    var entry := PadEntry(p.nextState, Additions(old_state, p.nextState), Removals(old_state, p.nextState),
                          p.nextCircleX, p.nextCircleY);
    var d1 := d.(currentState := p.nextState, index := index, entries := d.entries[index := entry]);
    var d2 := if index == 0 then d1.(indexResetTicksPrevious := d.indexResetTicks, indexResetTicks := ticks) else d1;
    (p2, d2)
  }

  /** The deltas an update records are exactly the difference between the
      new state and the entry written just before it in the ring. */
  lemma UpdateRecordsDifference(p: Pending, d: PadData, ticks: int)
    requires p.nextIndex < PAD_ENTRIES && |d.entries| == PAD_ENTRIES
    ensures var d2 := PadUpdateComplete(p, d, ticks).1;
            var e := d2.entries[d2.index];
            var before := d.entries[(p.nextIndex + PAD_ENTRIES - 1) % PAD_ENTRIES].currentState;
              (before & !e.deltaRemovals) | e.deltaAdditions == e.currentState
  {
    PreviousIndexIsPredecessor(p.nextIndex);
    DeltasReconstruct(d.entries[PreviousIndex(p.nextIndex)].currentState, p.nextState);
  }

  /** Two updates in a row with no key change in between record empty
      deltas the second time. */
  lemma RepeatedUpdateHasNoDelta(p: Pending, d: PadData, t1: int, t2: int)
    requires p.nextIndex < PAD_ENTRIES && |d.entries| == PAD_ENTRIES
    ensures var (p2, d2) := PadUpdateComplete(p, d, t1);
            var d3 := PadUpdateComplete(p2, d2, t2).1;
              d3.entries[d3.index].deltaAdditions == 0 && d3.entries[d3.index].deltaRemovals == 0
  {
    var (p2, d2) := PadUpdateComplete(p, d, t1);
    PreviousIndexIsPredecessor(p2.nextIndex);
    assert PreviousIndex(p2.nextIndex) == p.nextIndex;
  }
}
