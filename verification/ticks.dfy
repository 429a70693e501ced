/** uint32_t values, and FreeRTOS tick counts: uint32 values whose differences wrap modulo 2^32. */
module Ticks {

  const TickModulus: int := 0x1_0000_0000

  /** An unsigned 32-bit value (uint32_t). */
  type U32 = x: int | 0 <= x < 0x1_0000_0000

  type Tick = U32

  /** Unsigned difference `now - since` of two tick counts, i.e. the age of
      `since` at `now`, correct across one wrap of the counter. */
  function Elapsed(now: Tick, since: Tick): (r: Tick)
    ensures since <= now ==> r == now - since
    ensures now < since ==> r == now - since + TickModulus
    ensures (since + r) % TickModulus == now
  {
    (now - since) % TickModulus
  }
}
