/**
 * Kernel vocabulary shared by the admission code: the optional value, the
 * error numbers it returns (negated, as the kernel does), the timeout
 * sentinel of the scheduler, and jiffies arithmetic with its wrap-around.
 */
module Kernel {

  datatype Option<T> = None | Some(value: T)

  const EINTR: int := 4
  const EAGAIN: int := 11
  const ENOMEM: int := 12
  const EINVAL: int := 22
  const EADDRINUSE: int := 98
  const ERESTARTSYS: int := 512

  /** `MAX_SCHEDULE_TIMEOUT`, i.e. LONG_MAX on a 64-bit kernel: "wait forever". */
  const MAX_SCHEDULE_TIMEOUT: int := 0x7FFF_FFFF_FFFF_FFFF

  /** jiffies is an `unsigned long`: time wraps modulo 2^64. */
  const JIFFIES_MOD: nat := 0x1_0000_0000_0000_0000

  type Jiffies = j: nat | j < JIFFIES_MOD

  /**
   * `time_after_eq(a, b)`: `(long)(a - b) >= 0`, i.e. the unsigned
   * difference a - b modulo 2^64, read as a signed 64-bit value, is not
   * negative. Written without the modulo: when a >= b the difference is
   * a - b, otherwise it is a - b + 2^64.
   */
  predicate TimeAfterEq(a: Jiffies, b: Jiffies)
  {
    if a >= b then a - b < JIFFIES_MOD / 2 else b - a > JIFFIES_MOD / 2
  }

  /** `a + d` on jiffies (both `unsigned long`), wrapping modulo 2^64. */
  function JiffiesAdd(a: Jiffies, d: Jiffies): Jiffies
  {
    if a + d < JIFFIES_MOD then a + d else a + d - JIFFIES_MOD
  }

  /** The two definitions above are the kernel's modulo-2^64 arithmetic. */
  lemma JiffiesArithmeticWraps(a: Jiffies, b: Jiffies)
    ensures JiffiesAdd(a, b) == (a + b) % JIFFIES_MOD
    ensures TimeAfterEq(a, b) <==> (a - b) % JIFFIES_MOD < JIFFIES_MOD / 2
  {
    if a + b >= JIFFIES_MOD {
      assert (a + b) % JIFFIES_MOD == a + b - JIFFIES_MOD;
    }
    if a < b {
      assert (a - b) % JIFFIES_MOD == a - b + JIFFIES_MOD;
    }
  }

  /**
   * A deadline set `d` ticks ahead, for 0 < d < 2^63, has not yet come:
   * `time_after_eq(now, now + d)` is false even when `now + d` wraps.
   */
  lemma FutureDeadlineNotDue(now: Jiffies, d: Jiffies)
    requires 0 < d < JIFFIES_MOD / 2
    ensures !TimeAfterEq(now, JiffiesAdd(now, d))
  {
  }
}
