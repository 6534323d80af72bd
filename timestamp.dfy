/**
 * Reconciliation of a received frame's 16-bit FlexCAN capture time with the
 * 64-bit free-running clock built from the chained LPIT channels 0 and 1, as
 * resolve_Timestamp does it: uint64 arithmetic, absolute difference of the two
 * 16-bit-domain readings, wrap-around of the final subtraction, and division
 * by 80 (both clocks run at 80 MHz) to obtain microseconds.
 */
module Timestamp {
  import opened CanTypes

  const Two32: nat := 0x1_0000_0000
  const Two64: nat := 0x1_0000_0000_0000_0000
  /** LPIT_TMR_CVAL_TMR_CUR_VAL_MASK: the channels count down from this value. */
  const LpitMax: nat := 0xFFFF_FFFF
  /** Ticks per microsecond of the 80 MHz clock. */
  const TicksPerMicrosecond: nat := 80

  /** The current values (CVAL) of LPIT channels 0 (low half) and 1 (high half). */
  datatype LpitClock = LpitClock(cval0: U32, cval1: U32)

  /** Ticks a down-counting channel has run since it was loaded with 0xFFFFFFFF. */
  function ChannelTicks(cval: U32): (n: nat)
    ensures n <= LpitMax
  {
    LpitMax - cval
  }

  /** Two 32-bit halves side by side form a 64-bit value whose halves they are. */
  lemma Concat32(hi: nat, lo: nat)
    requires hi < 0x1_0000_0000 && lo < 0x1_0000_0000
    ensures hi * 0x1_0000_0000 + lo < 0x1_0000_0000_0000_0000
    ensures (hi * 0x1_0000_0000 + lo) % 0x1_0000_0000 == lo
    ensures (hi * 0x1_0000_0000 + lo) / 0x1_0000_0000 == hi
  {
  }

  /** target_source: `((0xFFFFFFFF - CVAL1) << 32) | (0xFFFFFFFF - CVAL0)`. */
  function TargetTicks(lpit: LpitClock): (t: nat)
    ensures t < Two64
  {
    var hi, lo := ChannelTicks(lpit.cval1), ChannelTicks(lpit.cval0);
    Concat32(hi, lo);
    hi * 0x1_0000_0000 + lo
  }

  /** Channel 0's ticks are the low 32 bits of the clock, channel 1's the high 32 bits. */
  lemma TargetTicksHalves(lpit: LpitClock)
    ensures TargetTicks(lpit) % Two32 == ChannelTicks(lpit.cval0)
    ensures TargetTicks(lpit) / Two32 == ChannelTicks(lpit.cval1)
  {
    Concat32(ChannelTicks(lpit.cval1), ChannelTicks(lpit.cval0));
  }

  /** source_delta: the absolute difference of the current TIMER and the capture. */
  function SourceDelta(timer: nat, captured: nat): nat {
    if timer > captured then timer - captured else captured - timer
  }

  /** resolved_timestamp_ISR: `(target_source - source_delta) / 80` in uint64. */
  function ResolveTimestamp(captured: nat, timer: nat, lpit: LpitClock): (us: nat)
    requires captured < Two64 && timer < Two64
    ensures us <= (Two64 - 1) / TicksPerMicrosecond
  {
    ((TargetTicks(lpit) - SourceDelta(timer, captured)) % Two64) / TicksPerMicrosecond
  }

  /** uint64 subtraction of b from a, for a and b in range. */
  lemma WrappingSub64(a: nat, b: nat)
    requires a < 0x1_0000_0000_0000_0000 && b < 0x1_0000_0000_0000_0000
    ensures b <= a ==> (a - b) % 0x1_0000_0000_0000_0000 == a - b
    ensures b > a ==> (a - b) % 0x1_0000_0000_0000_0000 == 0x1_0000_0000_0000_0000 + a - b
  {
  }

  lemma DivMonotone80(a: nat, b: nat)
    requires a <= b
    ensures a / 80 <= b / 80
  {
  }

  /** The reconciliation does not depend on which of the two readings is the larger. */
  lemma ResolveSymmetric(a: nat, b: nat, lpit: LpitClock)
    requires a < Two64 && b < Two64
    ensures ResolveTimestamp(a, b, lpit) == ResolveTimestamp(b, a, lpit)
  {
  }

  /** A capture equal to the current counter resolves to the clock reading itself. */
  lemma ResolveNoDelay(t: nat, lpit: LpitClock)
    requires t < Two64
    ensures ResolveTimestamp(t, t, lpit) == TargetTicks(lpit) / TicksPerMicrosecond
  {
    WrappingSub64(TargetTicks(lpit), 0);
  }

  /**
   * While the delta does not exceed the clock reading the result is the
   * back-dated reading, never later than the clock; otherwise the uint64
   * subtraction wraps around.
   */
  lemma ResolveBackDates(captured: nat, timer: nat, lpit: LpitClock)
    requires captured < Two64 && timer < Two64
    ensures SourceDelta(timer, captured) <= TargetTicks(lpit) ==>
              ResolveTimestamp(captured, timer, lpit) == (TargetTicks(lpit) - SourceDelta(timer, captured)) / TicksPerMicrosecond &&
              ResolveTimestamp(captured, timer, lpit) <= TargetTicks(lpit) / TicksPerMicrosecond
    ensures SourceDelta(timer, captured) > TargetTicks(lpit) ==>
              ResolveTimestamp(captured, timer, lpit) == (Two64 + TargetTicks(lpit) - SourceDelta(timer, captured)) / TicksPerMicrosecond
  {
    var t, d := TargetTicks(lpit), SourceDelta(timer, captured);
    WrappingSub64(t, d);
    if d <= t {
      DivMonotone80(t - d, t);
    }
  }
}
