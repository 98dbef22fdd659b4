/** The 32-bit millisecond clock. `now` and `at` without a suffix are true times that never wrap; what the
    firmware stores and compares are their remainders. */
module Clock {
  const WRAP := 0x1_0000_0000

  type U32 = x: nat | x < WRAP

  function Stamp(now: nat): U32 { now % WRAP }

  /** Unsigned 32-bit subtraction. */
  function Elapsed(nowMs: U32, thenMs: U32): U32 { (nowMs - thenMs) % WRAP }

  /** Elapsed time is the true age up to wrap-around, so never more than the true age. */
  lemma ElapsedIsAge(now: nat, at: nat)
    requires at <= now
    ensures Elapsed(Stamp(now), Stamp(at)) == (now - at) % WRAP <= now - at
    ensures now - at < WRAP ==> Elapsed(Stamp(now), Stamp(at)) == now - at
  {
  }
}
