/** The touch half of the HID shared-memory block: each touch update records
    the raw coordinates and writes one entry of the touch history ring; a
    release clears the history and restarts the ring. The pending ring
    position is the module's own static and is passed in and out. */
module HidTouch {
  import opened Types

  type U16 = x: int | 0 <= x < 0x1_0000

  /** Number of entries in the touch history ring. */
  const TOUCH_ENTRIES: nat := 8

  /** TouchDataEntry without its padding bytes. */
  datatype TouchEntry = TouchEntry(xCoord: U16, yCoord: U16, isValid: bool)

  /** A value-initialised entry. */
  const EMPTY: TouchEntry := TouchEntry(0, 0, false)

  datatype TouchData = TouchData(
    indexResetTicks: int,
    indexResetTicksPrevious: int,
    index: U32,
    raw: TouchEntry,
    entries: seq<TouchEntry>)

  predicate WellFormed(d: TouchData) {
    |d.entries| == TOUCH_ENTRIES && d.index < TOUCH_ENTRIES
  }

  /** The ring bookkeeping of a touch update: the pending position becomes
      the published index and advances round the ring, `entry` replaces the
      entry at that index and no other, and the reset-tick pair rolls over
      only when entry 0 was written. `ticks` is the CPU tick count at the
      time. */
  function Publish(nextIndex: nat, d: TouchData, entry: TouchEntry, ticks: int): (r: (nat, TouchData))
    requires nextIndex < TOUCH_ENTRIES && |d.entries| == TOUCH_ENTRIES
    ensures var (n2, d2) := r;
              && WellFormed(d2) && n2 < TOUCH_ENTRIES
              && d2.index == nextIndex && n2 == (nextIndex + 1) % TOUCH_ENTRIES
              && d2.entries[d2.index] == entry
              && (forall i :: 0 <= i < TOUCH_ENTRIES && i != d2.index ==> d2.entries[i] == d.entries[i])
              && d2.raw == d.raw
    ensures var (_, d2) := r;
              && (d2.index == 0 ==> d2.indexResetTicksPrevious == d.indexResetTicks && d2.indexResetTicks == ticks)
              && (d2.index != 0 ==> d2.indexResetTicksPrevious == d.indexResetTicksPrevious && d2.indexResetTicks == d.indexResetTicks)
  {
    var d1 := d.(index := nextIndex, entries := d.entries[nextIndex := entry]);
    var d2 := if nextIndex == 0 then d1.(indexResetTicksPrevious := d.indexResetTicks, indexResetTicks := ticks) else d1;
    ((nextIndex + 1) % TOUCH_ENTRIES, d2)
  }

  /** TouchLocationUpdated as written: the raw data gets both coordinates,
      but the history entry is given x and then y in its x field, so it ends
      up holding y there and keeps whatever y it held before. */
  function TouchLocationUpdatedAsWritten(nextIndex: nat, d: TouchData, x: U16, y: U16, ticks: int): (r: (nat, TouchData))
    requires nextIndex < TOUCH_ENTRIES && |d.entries| == TOUCH_ENTRIES
    ensures var (_, d2) := r;
              && WellFormed(d2) && d2.index == nextIndex
              && d2.raw == TouchEntry(x, y, true)
              && d2.entries[d2.index] == TouchEntry(y, d.entries[nextIndex].yCoord, true)
  {
    var d1 := d.(raw := TouchEntry(x, y, true));
    var previous := d.entries[nextIndex];
    var entry := previous.(xCoord := x).(xCoord := y).(isValid := true);
    Publish(nextIndex, d1, entry, ticks)
  }

  /** With the history cleared, a touch at (1, 2) is recorded in the history
      as (2, 0) while the raw data says (1, 2). */
  lemma AsWrittenMisrecordsTouch()
    ensures var d := TouchData(0, 0, 0, EMPTY, seq(TOUCH_ENTRIES, _ => EMPTY));
            var d2 := TouchLocationUpdatedAsWritten(0, d, 1, 2, 0).1;
              && d2.raw == TouchEntry(1, 2, true)
              && d2.entries[d2.index] == TouchEntry(2, 0, true)
              && d2.entries[d2.index] != d2.raw
  {
  }

  /** TouchLocationUpdated as evidently intended: the raw data and the new
      history entry both hold the touched position, marked valid. */
  function TouchLocationUpdated(nextIndex: nat, d: TouchData, x: U16, y: U16, ticks: int): (r: (nat, TouchData))
    requires nextIndex < TOUCH_ENTRIES && |d.entries| == TOUCH_ENTRIES
    ensures var (n2, d2) := r;
              && WellFormed(d2) && n2 < TOUCH_ENTRIES
              && d2.index == nextIndex && n2 == (nextIndex + 1) % TOUCH_ENTRIES
              && d2.raw.xCoord == x && d2.raw.yCoord == y && d2.raw.isValid
              && (forall i :: 0 <= i < TOUCH_ENTRIES && i != d2.index ==> d2.entries[i] == d.entries[i])
    ensures var (_, d2) := r;
              && (d2.index == 0 ==> d2.indexResetTicksPrevious == d.indexResetTicks && d2.indexResetTicks == ticks)
              && (d2.index != 0 ==> d2.indexResetTicksPrevious == d.indexResetTicksPrevious && d2.indexResetTicks == d.indexResetTicks)
  {
    var entry := TouchEntry(x, y, true);
    Publish(nextIndex, d.(raw := entry), entry, ticks)
  }

  /** The history entry a touch writes is the raw data it records: the same
      position, valid. */
  lemma TouchEntryMatchesRaw(nextIndex: nat, d: TouchData, x: U16, y: U16, ticks: int)
    requires nextIndex < TOUCH_ENTRIES && |d.entries| == TOUCH_ENTRIES
    ensures var d2 := TouchLocationUpdated(nextIndex, d, x, y, ticks).1;
              d2.entries[d2.index] == d2.raw
  {
  }

  /** TouchReleased: every history entry is cleared and the ring restarts at
      entry 0; the published index, the raw data and the reset ticks stay as
      they were. */
  function TouchReleased(d: TouchData): (r: (nat, TouchData))
    ensures var (n2, d2) := r;
              && n2 == 0
              && |d2.entries| == |d.entries|
              && (forall i :: 0 <= i < |d2.entries| ==> d2.entries[i] == EMPTY)
              && d2.index == d.index && d2.raw == d.raw
              && d2.indexResetTicks == d.indexResetTicks && d2.indexResetTicksPrevious == d.indexResetTicksPrevious
  {
    (0, d.(entries := seq(|d.entries|, _ => EMPTY)))
  }

  /** Releasing twice is releasing once. */
  lemma ReleaseIdempotent(d: TouchData)
    ensures TouchReleased(TouchReleased(d).1) == TouchReleased(d)
  {
  }

  /** The first touch after a release writes entry 0, stamps new reset
      ticks, and leaves it the only valid entry in the history. */
  lemma TouchAfterRelease(d: TouchData, x: U16, y: U16, ticks: int)
    requires |d.entries| == TOUCH_ENTRIES
    ensures var (n1, d1) := TouchReleased(d);
            var (n2, d2) := TouchLocationUpdated(n1, d1, x, y, ticks);
              && d2.index == 0 && n2 == 1
              && d2.indexResetTicks == ticks && d2.indexResetTicksPrevious == d.indexResetTicks
              && d2.entries[0] == TouchEntry(x, y, true)
              && (forall i :: 0 < i < TOUCH_ENTRIES ==> !d2.entries[i].isValid)
  {
    var (n1, d1) := TouchReleased(d);
    var d2 := TouchLocationUpdated(n1, d1, x, y, ticks).1;
    TouchEntryMatchesRaw(n1, d1, x, y, ticks);
    forall i | 0 < i < TOUCH_ENTRIES
      ensures !d2.entries[i].isValid
    {
      assert d2.entries[i] == d1.entries[i];
    }
  }

  /** As written, every touch after a release records y = 0 in the history,
      wherever the touch was. */
  lemma AsWrittenLosesY(d: TouchData, x: U16, y: U16, ticks: int)
    requires |d.entries| == TOUCH_ENTRIES
    ensures var (n1, d1) := TouchReleased(d);
            var d2 := TouchLocationUpdatedAsWritten(n1, d1, x, y, ticks).1;
              d2.entries[0].yCoord == 0 && d2.entries[0].xCoord == y
  {
  }
}
