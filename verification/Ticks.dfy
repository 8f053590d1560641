/** The 32-bit millisecond counter of the system. */
module Ticks {
  import opened Integers

  function TickCount(now: nat): u32 {
    now % 0x1_0000_0000
  }

  /** The difference of two readings, with its wrap-around. */
  function Elapsed(now: u32, since: u32): u32 {
    if since <= now then now - since else now - since + 0x1_0000_0000
  }

  /** It is the time that has passed, modulo the range of the counter. */
  lemma ElapsedTime(now: nat, since: nat)
    requires since <= now
    ensures Elapsed(TickCount(now), TickCount(since)) == (now - since) % 0x1_0000_0000 <= now - since
  {}
}
