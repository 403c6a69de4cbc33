/**
 * The heartbeat countdown of a server connection (MRH_CommunicationClient.c).
 * The clock is a parameter: `now` is a reading of time(NULL), a signed
 * time_t that the comparison and the subtraction convert to uint64_t.
 */
module CommunicationClient {

  const Uint64Range: int := 0x1_0000_0000_0000_0000

  /** time_t converted to uint64_t. */
  function AsUint64(t: int): (r: nat)
    ensures r < Uint64Range
    ensures 0 <= t < Uint64Range ==> r == t
  {
    t % Uint64Range
  }

  /**
   * Seconds left until the next heartbeat is due, from one clock reading:
   * 0 once the due time is reached.
   */
  function NextHeartbeatS(nextHeartbeat: nat, now: int): (r: nat)
    requires nextHeartbeat < Uint64Range
    ensures r <= nextHeartbeat
    ensures r == 0 <==> AsUint64(now) >= nextHeartbeat
    ensures r > 0 ==> AsUint64(now) + r == nextHeartbeat
  {
    if AsUint64(now) >= nextHeartbeat then 0 else nextHeartbeat - AsUint64(now)
  }

  /** The countdown never grows as the clock moves forward. */
  lemma CountdownDecreases(nextHeartbeat: nat, now: nat, later: nat)
    requires nextHeartbeat < Uint64Range && now <= later < Uint64Range
    ensures NextHeartbeatS(nextHeartbeat, later) <= NextHeartbeatS(nextHeartbeat, now)
    ensures NextHeartbeatS(nextHeartbeat, later) + (later - now) >= NextHeartbeatS(nextHeartbeat, now)
  {
  }

  /**
   * MRH_CC_GetNextHeartbeatS as written: the comparison and the subtraction
   * each read the clock, `now1` and `now2`, and the difference is taken in
   * uint64_t arithmetic.
   */
  function NextHeartbeatAsWritten(nextHeartbeat: nat, now1: int, now2: int): (r: nat)
    requires nextHeartbeat < Uint64Range
    ensures r < Uint64Range
    ensures AsUint64(now1) >= nextHeartbeat ==> r == 0
    ensures AsUint64(now1) < nextHeartbeat && AsUint64(now2) <= nextHeartbeat ==>
              r == nextHeartbeat - AsUint64(now2)
  {
    if AsUint64(now1) >= nextHeartbeat then 0 else (nextHeartbeat - AsUint64(now2)) % Uint64Range
  }

  /** Two readings that agree give the single-reading countdown. */
  lemma AsWrittenAgreesOnOneReading(nextHeartbeat: nat, now: int)
    requires nextHeartbeat < Uint64Range
    ensures NextHeartbeatAsWritten(nextHeartbeat, now, now) == NextHeartbeatS(nextHeartbeat, now)
  {
  }

  /**
   * A second boundary between the two readings makes the difference wrap to
   * the largest uint64_t instead of 0.
   */
  lemma AsWrittenWrapsAcrossTheDueTime()
    ensures NextHeartbeatAsWritten(10, 9, 11) == Uint64Range - 1
    ensures NextHeartbeatS(10, 11) == 0
  {
  }
}
