/** The tick arithmetic of tls_arch_mbox_fetch at HZ = 500, in 32-bit words. */
module Mbox {

  type u32 = w: nat | w < 0x1_0000_0000

  const LIMIT: nat := 0x1_0000_0000
  const HZ: nat := 500
  const SYS_ARCH_TIMEOUT: u32 := 0xFFFF_FFFF

  /** The longest timeout, in milliseconds, whose product with HZ fits a word. */
  const LONGEST: nat := 8589934

  /**
   * What the queue answers: nothing within the time asked for, after so many ticks,
   * or a message, with the tick counter at the start of the wait and the true ticks.
   */
  datatype Outcome = Expired(ticks: nat) | Received(start: u32, ticks: nat)

  /** Ticks asked of the queue for a timeout in milliseconds; none means for ever. */
  function WaitTicks(timeout: u32): (t: nat)
    ensures t == 0 <==> timeout == 0
  {
    var t := timeout * HZ % LIMIT / 1000;
    if timeout > 0 && t == 0 then 1 else t
  }

  function TickDifference(start: u32, stop: u32): u32 {
    if stop >= start then stop - start else 0xFFFF_FFFF - start + stop
  }

  /** Milliseconds reported for a message that came after so many ticks. */
  function Reported(start: u32, ticks: nat): nat {
    TickDifference(start, (start + ticks) % LIMIT) * 1000 % LIMIT / HZ
  }

  method Fetch(timeout: u32, outcome: Outcome) returns (r: u32)
    ensures outcome.Expired? ==> r == SYS_ARCH_TIMEOUT
    ensures outcome.Received? ==> r == Reported(outcome.start, outcome.ticks)
    ensures r == SYS_ARCH_TIMEOUT <==> outcome.Expired?
    ensures outcome.Received? ==> r <= 2 * outcome.ticks
  {
    match outcome
    case Expired(_) =>
      r := SYS_ARCH_TIMEOUT;
    case Received(start, ticks) =>
      ReportedNeverExceedsReal(start, ticks);
      var tickStart := start;
      var tickStop := (start + ticks) % LIMIT;
      var tickElapsed: u32;
      if tickStop >= tickStart {
        tickElapsed := tickStop - tickStart;
      } else {
        tickElapsed := 0xFFFF_FFFF - tickStart + tickStop;
      }
      r := tickElapsed * 1000 % LIMIT / HZ;
  }

  /** A report is never ahead of the clock and is never mistaken for a timeout. */
  lemma ReportedNeverExceedsReal(start: u32, ticks: nat)
    ensures Reported(start, ticks) <= 2 * ticks
    ensures Reported(start, ticks) < SYS_ARCH_TIMEOUT
  {
    var stop := (start + ticks) % LIMIT;
    var d := TickDifference(start, stop);
    CounterDifference(start, ticks);
    ScaleDown(d);
  }

  lemma CounterDifference(start: u32, ticks: nat)
    ensures var d := TickDifference(start, (start + ticks) % LIMIT);
            && d <= ticks
            && (start + ticks < LIMIT ==> d == ticks)
            && (LIMIT <= start + ticks < start + LIMIT ==> d == ticks - 1)
  {
    if start + ticks < LIMIT {
    } else if ticks < LIMIT {
      assert (start + ticks) % LIMIT == start + ticks - LIMIT;
    }
  }

  lemma ScaleDown(d: u32)
    ensures d * 1000 % LIMIT / HZ <= 2 * d
    ensures d * 1000 % LIMIT / HZ <= LONGEST
    ensures d * 1000 < LIMIT ==> d * 1000 % LIMIT / HZ == 2 * d
  {
    var x := d * 1000 % LIMIT;
    assert x <= d * 1000;
  }

  /**
   * The report is exact unless the tick counter wrapped during the wait, when it is a
   * tick short, or the wait was so long that the conversion to milliseconds wrapped.
   */
  lemma ReportIsExactIff(start: u32, ticks: nat)
    requires ticks < LIMIT
    ensures Reported(start, ticks) == 2 * ticks <==> start + ticks < LIMIT && ticks * 1000 < LIMIT
  {
    CounterDifference(start, ticks);
    ScaleDown(TickDifference(start, (start + ticks) % LIMIT));
  }

  /**
   * Waiting is as long as asked, up to a millisecond of tick rounding, exactly for
   * timeouts up to LONGEST; beyond it the product wraps and the wait is cut short.
   */
  lemma WaitIsFaithfulIff(timeout: u32)
    requires timeout > 0
    ensures timeout <= 2 * WaitTicks(timeout) + 1 <==> timeout <= LONGEST
    ensures timeout <= LONGEST ==> 2 * WaitTicks(timeout) <= timeout + 1
  {
    var x := timeout * HZ;
    if timeout <= LONGEST {
      assert x % LIMIT == x;
      assert x / 1000 == timeout / 2;
    } else if timeout == LONGEST + 1 {
      assert x % LIMIT == 204;
    } else {
      assert x % LIMIT / 1000 <= 4294967;
    }
  }
}
