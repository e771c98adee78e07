/**
 * The cursor of the ring log as the firmware stores it: 32-bit unsigned
 * counters that wrap to 0 after 0xFFFFFFFF. The rest of the model uses
 * unbounded counters (module `RingStore`); this module shows where the two
 * part ways.
 */
module RingWrap {
  import opened Common
  import RingStore

  datatype Cursor32 = Cursor32(head: u32, tail: u32, full: bool)

  /** The same counters read as unbounded numbers. */
  function Widen(c: Cursor32): RingStore.Cursor
  {
    RingStore.Cursor(c.head, c.tail, c.full)
  }

  /** The cursor update of `RingStoreAppend` on 32-bit counters. Until
      `head` reaches 0xFFFFFFFF it moves exactly as the unbounded update. */
  function AppendCursor32(c: Cursor32, cap: u32): (r: Cursor32)
    requires cap >= 1
    ensures r.head == Inc32(c.head)
    ensures RingStore.Inv(Widen(c), cap) && c.head < Two32 - 1 ==>
      Widen(r) == RingStore.AppendCursor(Widen(c), cap)
  {
    var head := Inc32(c.head);
    var tail := if c.full then Inc32(c.tail) else c.tail;
    if !c.full && Sub32(head, tail) >= cap then Cursor32(head, Sub32(head, cap), true)
    else Cursor32(head, tail, c.full)
  }

  /** The slot `RingStoreAppend` writes: `head % cap`. */
  function Slot32(c: Cursor32, cap: u32): (s: nat)
    requires cap >= 1
    ensures s < cap
  {
    c.head % cap
  }

  /** `RingStoreCountApprox` on 32-bit counters. While no counter has
      wrapped past the other it is the unbounded count. */
  function CountApprox32(c: Cursor32, cap: u32): (n: nat)
    ensures RingStore.Inv(Widen(c), cap) ==> n == RingStore.QueuedCount(Widen(c), cap) == c.head - c.tail
    ensures !c.full && c.head >= c.tail ==> n == c.head - c.tail
    ensures !c.full && c.head < c.tail ==> n == 0
    ensures c.full ==> n == cap
  {
    if !c.full then (if c.head >= c.tail then c.head - c.tail else 0) else cap
  }

  /** Before the wrap, the 32-bit append writes the slot the unbounded one
      writes, the next slot after the one it wrote last, and leaves a cursor
      whose count is the unbounded count. */
  lemma {:induction false} AgreesBeforeWrap(c: Cursor32, cap: u32)
    requires cap >= 1 && RingStore.Inv(Widen(c), cap) && c.head < Two32 - 1
    ensures Slot32(c, cap) == Widen(c).head % cap
    ensures Slot32(AppendCursor32(c, cap), cap) == RingStore.AppendCursor(Widen(c), cap).head % cap
                                                == (Slot32(c, cap) + 1) % cap
    ensures RingStore.Inv(Widen(AppendCursor32(c, cap)), cap)
    ensures CountApprox32(AppendCursor32(c, cap), cap)
            == RingStore.QueuedCount(RingStore.AppendCursor(Widen(c), cap), cap)
  {
    var r := AppendCursor32(c, cap);
    assert Widen(r) == RingStore.AppendCursor(Widen(c), cap);
    NextMod(c.head, cap);
  }

  /** The slot after slot `h mod cap` is slot `(h + 1) mod cap`. */
  lemma {:induction false} NextMod(h: nat, cap: nat)
    requires cap >= 1
    ensures (h + 1) % cap == (h % cap + 1) % cap
  {
    var q, r := h / cap, h % cap;
    if r + 1 < cap {
      RingStore.ModOf(h + 1, q, r + 1, cap);
      RingStore.ModOf(r + 1, 0, r + 1, cap);
    } else {
      RingStore.ModOf(h + 1, q + 1, 0, cap);
      RingStore.ModOf(r + 1, 1, 0, cap);
    }
  }

  /** The wrap-safe count: `full ? cap : head - tail` with the subtraction
      on `uint32_t`. */
  function CountSafe32(c: Cursor32, cap: u32): (n: nat)
    ensures c.full ==> n == cap
    ensures !c.full ==> n < Two32
  {
    if c.full then cap else Sub32(c.head, c.tail)
  }

  /** Whatever the unbounded counters, the wrap-safe count of their 32-bit
      images is the queue length. */
  lemma {:induction false} CountSafeIsQueued(c: RingStore.Cursor, cap: u32)
    requires cap >= 1 && RingStore.Inv(c, cap)
    ensures CountSafe32(Cursor32(c.head % Two32, c.tail % Two32, c.full), cap) == RingStore.QueuedCount(c, cap)
  {
    var d := c.head - c.tail;
    assert d < Two32;
    assert c.head == c.tail + d;
    ModSum(c.tail, d);
  }

  /** Subtraction on `uint32_t` undoes addition modulo 2^32. */
  lemma {:induction false} ModSum(t: nat, d: nat)
    requires d < Two32
    ensures Sub32((t + d) % Two32, t % Two32) == d
  {
    var q, r := t / Two32, t % Two32;
    if r + d < Two32 {
      RingStore.ModOf(t + d, q, r + d, Two32);
    } else {
      RingStore.ModOf(t + d, q + 1, r + d - Two32, Two32);
    }
  }

  /** When `head` wraps, two consecutive appends write the same slot: with
      17 slots and an empty ring at 0xFFFFFFFF, the first record is
      overwritten by the second while the cursor counts two records. */
  lemma {:induction false} WrappedAppendsShareSlot(c: Cursor32, cap: u32)
    requires c == Cursor32(0xFFFF_FFFF, 0xFFFF_FFFF, false) && cap == 17
    ensures Slot32(c, cap) == 0
    ensures AppendCursor32(c, cap) == Cursor32(0, 0xFFFF_FFFF, false)
    ensures Slot32(AppendCursor32(c, cap), cap) == 0
    ensures AppendCursor32(AppendCursor32(c, cap), cap) == Cursor32(1, 0xFFFF_FFFF, false)
    ensures Sub32(1, 0xFFFF_FFFF) == 2
  {
    assert 0xFFFF_FFFF == 17 * 252645135;
  }

  /** After the wrap, the queue holds one record (`head - tail` is 1 on
      `uint32_t`) but `RingStoreCountApprox` reports none, so the uplink
      sends nothing until `head` passes `tail` again. */
  lemma {:induction false} WrappedCountIsZero(c: Cursor32, cap: u32)
    requires c == Cursor32(0xFFFF_FFFF, 0xFFFF_FFFF, false) && cap >= 2
    ensures AppendCursor32(c, cap) == Cursor32(0, 0xFFFF_FFFF, false)
    ensures Sub32(0, 0xFFFF_FFFF) == 1
    ensures CountApprox32(AppendCursor32(c, cap), cap) == 0
  {
  }

  /** With unbounded counters, consecutive appends write consecutive
      slots, so a record is only overwritten after `cap` further appends. */
  lemma {:induction false} NextSlotDiffers(h: nat, k: nat, cap: nat)
    requires cap >= 1 && 0 < k < cap
    ensures (h + k) % cap != h % cap
  {
    RingStore.ModDistinct(h, 0, k, cap);
  }
}
