/** The portable helpers of common_funcs.h: clamping, min/max, rounding up to
    a power of two, rotations and the generic byte swaps. Only the generic
    (non-intrinsic) implementations are modelled. */
module CommonFuncs {

  /** CLAMP(x, min, max): `max` when above it, else `min` when below it, else x. */
  function Clamp(x: int, lo: int, hi: int): (r: int)
    ensures lo <= hi ==> lo <= r <= hi
    ensures lo <= x <= hi ==> r == x
    ensures lo <= hi && x < lo ==> r == lo
    ensures x > hi ==> r == hi
  {
    if x > hi then hi else if x < lo then lo else x
  }

  /** The MIN macro. */
  function Min(a: int, b: int): (r: int)
    ensures r == a || r == b
    ensures r <= a && r <= b
  {
    if a < b then a else b
  }

  /** The MAX macro; Dolphin's `max` template is the same expression. */
  function Max(a: int, b: int): (r: int)
    ensures r == a || r == b
    ensures r >= a && r >= b
  {
    if a > b then a else b
  }

  /** Dolphin's `min` template: compares the other way round from MIN. */
  function TemplateMin(a: int, b: int): (r: int)
    ensures r == a || r == b
    ensures r <= a && r <= b
  {
    if a > b then b else a
  }

  /** The two spellings of min agree, min never exceeds max, and together
      they are the two arguments. */
  lemma MinMaxAgree(a: int, b: int)
    ensures Min(a, b) == TemplateMin(a, b)
    ensures TemplateMin(a, b) <= Max(a, b)
    ensures {TemplateMin(a, b), Max(a, b)} == {a, b}
  {
  }

  /** Clamping twice is clamping once. */
  lemma ClampIdempotent(x: int, lo: int, hi: int)
    requires lo <= hi
    ensures Clamp(Clamp(x, lo, hi), lo, hi) == Clamp(x, lo, hi)
  {
  }

  // ---------------------------------------------------------------------
  // ROUND_UP_POW2

  predicate IsPow2(v: bv32) {
    v != 0 && v & (v - 1) == 0
  }

  /** b32(x): every bit below the highest set bit of x becomes set. */
  function Smear(x: bv32): bv32 {
    var b2 := x | (x >> 1);
    var b4 := b2 | (b2 >> 2);
    var b8 := b4 | (b4 >> 4);
    var b16 := b8 | (b8 >> 8);
    b16 | (b16 >> 16)
  }

  /** ROUND_UP_POW2(x) = b32(x - 1) + 1 on 32-bit unsigned values: a power
      of two not below x whose half is below x. For x == 0 and for x above
      2^31 no such power fits, b32(x - 1) is all ones and the +1 wraps to 0. */
  function RoundUpPow2(x: bv32): (r: bv32)
    ensures 1 <= x <= 0x8000_0000 ==> IsPow2(r)
    ensures 1 <= x <= 0x8000_0000 ==> x <= r
    ensures 1 <= x <= 0x8000_0000 ==> r / 2 < x
    ensures x == 0 || x > 0x8000_0000 ==> r == 0
  {
    Smear(x - 1) + 1
  }

  /** ROUND_UP_POW2 is the least power of two that is at least x. */
  lemma RoundUpPow2IsLeast(x: bv32, p: bv32)
    requires 1 <= x <= 0x8000_0000
    requires IsPow2(p) && x <= p
    ensures RoundUpPow2(x) <= p
  {
    var r := RoundUpPow2(x);
    assert r / 2 < p;
  }

  // ---------------------------------------------------------------------
  // Rotations

  /* The solver settles a cancellation for a fixed amount at once but not
     for a symbolic one, so the cancellation proofs split on the amount; the
     64-bit ones go in blocks of eight amounts so that each proof stays
     small. The 32-bit bit-position facts need no split. */

  /** Bit i of a 32-bit value, as 0 or 1. */
  function BitAt(x: bv32, i: bv32): bv32
    requires i < 32
  {
    (x >> i) & 1
  }

  /** The shift/or expression of _rotl64 for an amount in 1..63. */
  function RotateLeft64(x: bv64, n: bv64): bv64
    requires 0 < n < 64
  {
    (x << n) | (x >> (64 - n))
  }

  /** The shift/or expression of _rotr64 for an amount in 1..63. */
  function RotateRight64(x: bv64, n: bv64): bv64
    requires 0 < n < 64
  {
    (x >> n) | (x << (64 - n))
  }

  /** A right rotation undoes a left rotation by the same amount, stated on
      the shift/or expressions of _rotl and _rotr. */
  lemma RotateCancels32(x: bv32, n: bv32)
    requires 0 < n < 32
    ensures var y := (x << n) | (x >> (32 - n)); (y >> n) | (y << (32 - n)) == x
  {
    if n == 1 {} else if n == 2 {} else if n == 3 {} else if n == 4 {} else if n == 5 {} else if n == 6 {} else
    if n == 7 {} else if n == 8 {} else if n == 9 {} else if n == 10 {} else if n == 11 {} else if n == 12 {} else
    if n == 13 {} else if n == 14 {} else if n == 15 {} else if n == 16 {} else if n == 17 {} else if n == 18 {} else
    if n == 19 {} else if n == 20 {} else if n == 21 {} else if n == 22 {} else if n == 23 {} else if n == 24 {} else
    if n == 25 {} else if n == 26 {} else if n == 27 {} else if n == 28 {} else if n == 29 {} else if n == 30 {} else
    if n == 31 {}
  }

  /** A left rotation undoes a right rotation by the same amount. */
  lemma RotateCancelsReverse32(x: bv32, n: bv32)
    requires 0 < n < 32
    ensures var y := (x >> n) | (x << (32 - n)); (y << n) | (y >> (32 - n)) == x
  {
    if n == 1 {} else if n == 2 {} else if n == 3 {} else if n == 4 {} else if n == 5 {} else if n == 6 {} else
    if n == 7 {} else if n == 8 {} else if n == 9 {} else if n == 10 {} else if n == 11 {} else if n == 12 {} else
    if n == 13 {} else if n == 14 {} else if n == 15 {} else if n == 16 {} else if n == 17 {} else if n == 18 {} else
    if n == 19 {} else if n == 20 {} else if n == 21 {} else if n == 22 {} else if n == 23 {} else if n == 24 {} else
    if n == 25 {} else if n == 26 {} else if n == 27 {} else if n == 28 {} else if n == 29 {} else if n == 30 {} else
    if n == 31 {}
  }

  lemma RotateCancels64Block0(x: bv64, y: bv64, n: bv64)
    requires 1 <= n < 9
    requires y == (x << n) | (x >> (64 - n))
    ensures (y >> n) | (y << (64 - n)) == x
  {
    if n == 1 {} else if n == 2 {} else if n == 3 {} else if n == 4 {} else if n == 5 {} else if n == 6 {} else
    if n == 7 {} else if n == 8 {}
  }

  lemma RotateCancels64Block1(x: bv64, y: bv64, n: bv64)
    requires 9 <= n < 17
    requires y == (x << n) | (x >> (64 - n))
    ensures (y >> n) | (y << (64 - n)) == x
  {
    if n == 9 {} else if n == 10 {} else if n == 11 {} else if n == 12 {} else if n == 13 {} else if n == 14 {} else
    if n == 15 {} else if n == 16 {}
  }

  lemma RotateCancels64Block2(x: bv64, y: bv64, n: bv64)
    requires 17 <= n < 25
    requires y == (x << n) | (x >> (64 - n))
    ensures (y >> n) | (y << (64 - n)) == x
  {
    if n == 17 {} else if n == 18 {} else if n == 19 {} else if n == 20 {} else if n == 21 {} else if n == 22 {} else
    if n == 23 {} else if n == 24 {}
  }

  lemma RotateCancels64Block3(x: bv64, y: bv64, n: bv64)
    requires 25 <= n < 33
    requires y == (x << n) | (x >> (64 - n))
    ensures (y >> n) | (y << (64 - n)) == x
  {
    if n == 25 {} else if n == 26 {} else if n == 27 {} else if n == 28 {} else if n == 29 {} else if n == 30 {} else
    if n == 31 {} else if n == 32 {}
  }

  lemma RotateCancels64Block4(x: bv64, y: bv64, n: bv64)
    requires 33 <= n < 41
    requires y == (x << n) | (x >> (64 - n))
    ensures (y >> n) | (y << (64 - n)) == x
  {
    if n == 33 {} else if n == 34 {} else if n == 35 {} else if n == 36 {} else if n == 37 {} else if n == 38 {} else
    if n == 39 {} else if n == 40 {}
  }

  lemma RotateCancels64Block5(x: bv64, y: bv64, n: bv64)
    requires 41 <= n < 49
    requires y == (x << n) | (x >> (64 - n))
    ensures (y >> n) | (y << (64 - n)) == x
  {
    if n == 41 {} else if n == 42 {} else if n == 43 {} else if n == 44 {} else if n == 45 {} else if n == 46 {} else
    if n == 47 {} else if n == 48 {}
  }

  lemma RotateCancels64Block6(x: bv64, y: bv64, n: bv64)
    requires 49 <= n < 57
    requires y == (x << n) | (x >> (64 - n))
    ensures (y >> n) | (y << (64 - n)) == x
  {
    if n == 49 {} else if n == 50 {} else if n == 51 {} else if n == 52 {} else if n == 53 {} else if n == 54 {} else
    if n == 55 {} else if n == 56 {}
  }

  lemma RotateCancels64Block7(x: bv64, y: bv64, n: bv64)
    requires 57 <= n < 64
    requires y == (x << n) | (x >> (64 - n))
    ensures (y >> n) | (y << (64 - n)) == x
  {
    if n == 57 {} else if n == 58 {} else if n == 59 {} else if n == 60 {} else if n == 61 {} else if n == 62 {} else
    if n == 63 {}
  }

  lemma RotateCancelsReverse64Block0(x: bv64, y: bv64, n: bv64)
    requires 1 <= n < 9
    requires y == (x >> n) | (x << (64 - n))
    ensures (y << n) | (y >> (64 - n)) == x
  {
    if n == 1 {} else if n == 2 {} else if n == 3 {} else if n == 4 {} else if n == 5 {} else if n == 6 {} else
    if n == 7 {} else if n == 8 {}
  }

  lemma RotateCancelsReverse64Block1(x: bv64, y: bv64, n: bv64)
    requires 9 <= n < 17
    requires y == (x >> n) | (x << (64 - n))
    ensures (y << n) | (y >> (64 - n)) == x
  {
    if n == 9 {} else if n == 10 {} else if n == 11 {} else if n == 12 {} else if n == 13 {} else if n == 14 {} else
    if n == 15 {} else if n == 16 {}
  }

  lemma RotateCancelsReverse64Block2(x: bv64, y: bv64, n: bv64)
    requires 17 <= n < 25
    requires y == (x >> n) | (x << (64 - n))
    ensures (y << n) | (y >> (64 - n)) == x
  {
    if n == 17 {} else if n == 18 {} else if n == 19 {} else if n == 20 {} else if n == 21 {} else if n == 22 {} else
    if n == 23 {} else if n == 24 {}
  }

  lemma RotateCancelsReverse64Block3(x: bv64, y: bv64, n: bv64)
    requires 25 <= n < 33
    requires y == (x >> n) | (x << (64 - n))
    ensures (y << n) | (y >> (64 - n)) == x
  {
    if n == 25 {} else if n == 26 {} else if n == 27 {} else if n == 28 {} else if n == 29 {} else if n == 30 {} else
    if n == 31 {} else if n == 32 {}
  }

  lemma RotateCancelsReverse64Block4(x: bv64, y: bv64, n: bv64)
    requires 33 <= n < 41
    requires y == (x >> n) | (x << (64 - n))
    ensures (y << n) | (y >> (64 - n)) == x
  {
    if n == 33 {} else if n == 34 {} else if n == 35 {} else if n == 36 {} else if n == 37 {} else if n == 38 {} else
    if n == 39 {} else if n == 40 {}
  }

  lemma RotateCancelsReverse64Block5(x: bv64, y: bv64, n: bv64)
    requires 41 <= n < 49
    requires y == (x >> n) | (x << (64 - n))
    ensures (y << n) | (y >> (64 - n)) == x
  {
    if n == 41 {} else if n == 42 {} else if n == 43 {} else if n == 44 {} else if n == 45 {} else if n == 46 {} else
    if n == 47 {} else if n == 48 {}
  }

  lemma RotateCancelsReverse64Block6(x: bv64, y: bv64, n: bv64)
    requires 49 <= n < 57
    requires y == (x >> n) | (x << (64 - n))
    ensures (y << n) | (y >> (64 - n)) == x
  {
    if n == 49 {} else if n == 50 {} else if n == 51 {} else if n == 52 {} else if n == 53 {} else if n == 54 {} else
    if n == 55 {} else if n == 56 {}
  }

  lemma RotateCancelsReverse64Block7(x: bv64, y: bv64, n: bv64)
    requires 57 <= n < 64
    requires y == (x >> n) | (x << (64 - n))
    ensures (y << n) | (y >> (64 - n)) == x
  {
    if n == 57 {} else if n == 58 {} else if n == 59 {} else if n == 60 {} else if n == 61 {} else if n == 62 {} else
    if n == 63 {}
  }

  /** _rotr64's expression undoes _rotl64's for every amount in 1..63,
      stated on the shift/or expressions. */
  lemma {:induction false} RotateCancels64(x: bv64, y: bv64, n: bv64)
    requires 0 < n < 64
    requires y == (x << n) | (x >> (64 - n))
    ensures (y >> n) | (y << (64 - n)) == x
  {
    if n < 9 {
      RotateCancels64Block0(x, y, n);
    } else if n < 17 {
      RotateCancels64Block1(x, y, n);
    } else if n < 25 {
      RotateCancels64Block2(x, y, n);
    } else if n < 33 {
      RotateCancels64Block3(x, y, n);
    } else if n < 41 {
      RotateCancels64Block4(x, y, n);
    } else if n < 49 {
      RotateCancels64Block5(x, y, n);
    } else if n < 57 {
      RotateCancels64Block6(x, y, n);
    } else if n < 64 {
      RotateCancels64Block7(x, y, n);
    }
  }

  /** _rotl64's expression undoes _rotr64's likewise. */
  lemma {:induction false} RotateCancelsReverse64(x: bv64, y: bv64, n: bv64)
    requires 0 < n < 64
    requires y == (x >> n) | (x << (64 - n))
    ensures (y << n) | (y >> (64 - n)) == x
  {
    if n < 9 {
      RotateCancelsReverse64Block0(x, y, n);
    } else if n < 17 {
      RotateCancelsReverse64Block1(x, y, n);
    } else if n < 25 {
      RotateCancelsReverse64Block2(x, y, n);
    } else if n < 33 {
      RotateCancelsReverse64Block3(x, y, n);
    } else if n < 41 {
      RotateCancelsReverse64Block4(x, y, n);
    } else if n < 49 {
      RotateCancelsReverse64Block5(x, y, n);
    } else if n < 57 {
      RotateCancelsReverse64Block6(x, y, n);
    } else if n < 64 {
      RotateCancelsReverse64Block7(x, y, n);
    }
  }

  /** The rotate step of _rotl once the amount is reduced below 32:
      identity for zero, else `x << n | x >> (32 - n)`. */
  function RotateLeft32(x: bv32, n: bv32): bv32
    requires n < 32
  {
    if n == 0 then x else (x << n) | (x >> (32 - n))
  }

  function RotateRight32(x: bv32, n: bv32): bv32
    requires n < 32
  {
    if n == 0 then x else (x >> n) | (x << (32 - n))
  }

  /** The rotate step of _rotl moves bit i to bit (i + n) mod 32. */
  lemma RotateLeft32Bits(x: bv32, n: bv32)
    requires n < 32
    ensures forall i: bv32 :: i < 32 ==> BitAt(RotateLeft32(x, n), (i + n) % 32) == BitAt(x, i)
  {
  }

  /** The rotate step of _rotr moves bit (i + n) mod 32 to bit i. */
  lemma RotateRight32Bits(x: bv32, n: bv32)
    requires n < 32
    ensures forall i: bv32 :: i < 32 ==> BitAt(RotateRight32(x, n), i) == BitAt(x, (i + n) % 32)
  {
  }

  lemma {:induction false} RotateRightUndoesLeft32(x: bv32, n: bv32)
    requires n < 32
    ensures RotateRight32(RotateLeft32(x, n), n) == x
  {
    if n != 0 {
      RotateCancels32(x, n);
    }
  }

  lemma {:induction false} RotateLeftUndoesRight32(x: bv32, n: bv32)
    requires n < 32
    ensures RotateLeft32(RotateRight32(x, n), n) == x
  {
    if n != 0 {
      RotateCancelsReverse32(x, n);
    }
  }

  /** _rotl: `shift &= 31`, then the rotate step. */
  function Rotl(x: bv32, shift: bv32): (r: bv32)
    ensures shift & 31 == 0 ==> r == x
  {
    RotateLeft32(x, shift & 31)
  }

  /** _rotr: as _rotl, rotating right. */
  function Rotr(x: bv32, shift: bv32): (r: bv32)
    ensures shift & 31 == 0 ==> r == x
  {
    RotateRight32(x, shift & 31)
  }

  /** _rotl moves bit i of x to bit (i + shift) mod 32. */
  lemma {:induction false} RotlMovesBits(x: bv32, shift: bv32)
    ensures forall i: bv32 :: i < 32 ==> BitAt(Rotl(x, shift), (i + (shift & 31)) % 32) == BitAt(x, i)
  {
    RotateLeft32Bits(x, shift & 31);
  }

  /** _rotr puts bit (i + shift) mod 32 of x at bit i. */
  lemma {:induction false} RotrMovesBits(x: bv32, shift: bv32)
    ensures forall i: bv32 :: i < 32 ==> BitAt(Rotr(x, shift), i) == BitAt(x, (i + (shift & 31)) % 32)
  {
    RotateRight32Bits(x, shift & 31);
  }

  /** A rotation by one carries the top bit round to the bottom, and back;
      the amount is taken mod 32. */
  lemma RotateByOne()
    ensures Rotl(0x8000_0001, 1) == 3
    ensures Rotr(3, 1) == 0x8000_0001
    ensures Rotr(1, 1) == 0x8000_0000
    ensures Rotl(1, 33) == 2
  {
  }

  /** _rotl and _rotr undo each other for every shift. */
  lemma {:induction false} RotlRotrInverse(x: bv32, shift: bv32)
    ensures Rotr(Rotl(x, shift), shift) == x
    ensures Rotl(Rotr(x, shift), shift) == x
  {
    RotateRightUndoesLeft32(x, shift & 31);
    RotateLeftUndoesRight32(x, shift & 31);
  }

  /** `shift %= 64` with the 32-bit shift count, as a 64-bit amount. */
  function Amount64(shift: bv32): (n: bv64)
    requires shift % 64 != 0
    ensures 0 < n < 64
  {
    (shift % 64) as bv64
  }

  /** _rotl64: `shift %= 64`, then `x << shift | x >> (64 - shift)`, with no
      zero test; a zero amount would shift by 64, which C++ leaves
      undefined, so the model is defined only for a nonzero amount. */
  function Rotl64(x: bv64, shift: bv32): bv64
    requires shift % 64 != 0
  {
    RotateLeft64(x, Amount64(shift))
  }

  /** _rotr64: as _rotl64, rotating right. */
  function Rotr64(x: bv64, shift: bv32): bv64
    requires shift % 64 != 0
  {
    RotateRight64(x, Amount64(shift))
  }

  /* The cancellation facts are handed over through a named intermediate
     value: restating them on the function applications directly makes the
     solver expand both 64-bit shifters at once. */

  lemma RotateLeft64Unfolds(x: bv64, n: bv64)
    requires 0 < n < 64
    ensures RotateLeft64(x, n) == (x << n) | (x >> (64 - n))
  {
  }

  lemma RotateRight64Unfolds(x: bv64, n: bv64)
    requires 0 < n < 64
    ensures RotateRight64(x, n) == (x >> n) | (x << (64 - n))
  {
  }

  /** _rotr64 undoes _rotl64 for every amount they accept. */
  lemma {:induction false} Rotr64UndoesRotl64(x: bv64, shift: bv32)
    requires shift % 64 != 0
    ensures Rotr64(Rotl64(x, shift), shift) == x
  {
    var n := Amount64(shift);
    var y := RotateLeft64(x, n);
    RotateLeft64Unfolds(x, n);
    RotateCancels64(x, y, n);
    RotateRight64Unfolds(y, n);
  }

  /** _rotl64 undoes _rotr64 for every amount they accept. */
  lemma {:induction false} Rotl64UndoesRotr64(x: bv64, shift: bv32)
    requires shift % 64 != 0
    ensures Rotl64(Rotr64(x, shift), shift) == x
  {
    var n := Amount64(shift);
    var y := RotateRight64(x, n);
    RotateRight64Unfolds(x, n);
    RotateCancelsReverse64(x, y, n);
    RotateLeft64Unfolds(y, n);
  }

  /** _rotl64 carries the top bit round to the bottom and _rotr64 the
      bottom bit round to the top; the amount is taken mod 64. */
  lemma Rotate64ByOne()
    ensures Rotl64(0x8000_0000_0000_0001, 1) == 3
    ensures Rotr64(3, 1) == 0x8000_0000_0000_0001
    ensures Rotr64(1, 1) == 0x8000_0000_0000_0000
    ensures Rotl64(1, 65) == 2
  {
  }

  // ---------------------------------------------------------------------
  // Byte swaps (the "slow generic implementation")

  /** swap16: exchange the two bytes. */
  function Swap16(d: bv16): (r: bv16)
    ensures r >> 8 == d & 0xFF && r & 0xFF == d >> 8
  {
    (d >> 8) | (d << 8)
  }

  function Low16(v: bv32): bv16 { (v & 0xFFFF) as bv16 }
  function Low32(v: bv64): bv32 { (v & 0xFFFF_FFFF) as bv32 }

  /** swap32: swap16 of the low half moved up, swap16 of the high half moved
      down; byte k of the result is byte 3 - k of the input. */
  function Swap32(d: bv32): (r: bv32)
    ensures r >> 24 == d & 0xFF
    ensures (r >> 16) & 0xFF == (d >> 8) & 0xFF
    ensures (r >> 8) & 0xFF == (d >> 16) & 0xFF
    ensures r & 0xFF == d >> 24
  {
    ((Swap16(Low16(d)) as bv32) << 16) | (Swap16(Low16(d >> 16)) as bv32)
  }

  /** swap64: swap32 of the low half moved up, swap32 of the high half moved
      down; byte k of the result is byte 7 - k of the input. */
  function Swap64(d: bv64): (r: bv64)
    ensures r >> 56 == d & 0xFF
    ensures (r >> 48) & 0xFF == (d >> 8) & 0xFF
    ensures (r >> 40) & 0xFF == (d >> 16) & 0xFF
    ensures (r >> 32) & 0xFF == (d >> 24) & 0xFF
    ensures (r >> 24) & 0xFF == (d >> 32) & 0xFF
    ensures (r >> 16) & 0xFF == (d >> 40) & 0xFF
    ensures (r >> 8) & 0xFF == (d >> 48) & 0xFF
    ensures r & 0xFF == d >> 56
  {
    ((Swap32(Low32(d)) as bv64) << 32) | (Swap32(Low32(d >> 32)) as bv64)
  }

  /** Every generic byte swap is an involution. */
  lemma SwapsAreInvolutions(a: bv16, b: bv32, c: bv64)
    ensures Swap16(Swap16(a)) == a
    ensures Swap32(Swap32(b)) == b
    ensures Swap64(Swap64(c)) == c
  {
    Swap32Involution(b);
    Swap64Involution(c);
  }

  lemma Swap32Involution(b: bv32)
    ensures Swap32(Swap32(b)) == b
  {
  }

  lemma Swap64Involution(c: bv64)
    ensures Swap64(Swap64(c)) == c
  {
  }

  /** swap24: three bytes read big-endian into the low 24 bits. */
  function Swap24(b0: bv8, b1: bv8, b2: bv8): (r: bv32)
    ensures r < 0x100_0000
    ensures r >> 16 == b0 as bv32
    ensures (r >> 8) & 0xFF == b1 as bv32
    ensures r & 0xFF == b2 as bv32
  {
    ((b0 as bv32) << 16) | ((b1 as bv32) << 8) | (b2 as bv32)
  }
}
