/** Points in time as the time library represents them: nanoseconds since the Unix epoch, years -9999 to 9999. */
module Time {
  const NANOS: nat := 1_000_000_000
  const MIN_TIME: int := -377_705_116_800 * NANOS
  const MAX_TIME: int := 253_402_300_800 * NANOS - 1

  type Instant = t: int | MIN_TIME <= t <= MAX_TIME witness 0
}
