/**
 * The timed block-polling helpers flagPollTimeout_Set and flagPollTimeout_Clear.
 * Each pass reads the polled register and, if the flag is not yet in the wanted
 * state, reads LPIT channel 2 (restarted at 0xFFFFFFFF and counting down); the
 * poll gives up once 0xFFFFFFFF - CVAL reaches 0xFFFFFF.
 *
 * What the hardware shows on successive reads is an input: a trace of samples,
 * one per pass, each holding the register value and the CVAL value read.
 */
module TimedPolls {
  import opened CanTypes

  /** cycles_timeout: 2^24 - 1 LPIT ticks (about 0.2 s at 80 MHz). */
  const CyclesTimeout: U32 := 0xFF_FFFF
  /** LPIT_TMR_CVAL_TMR_CUR_VAL_MASK: the value the channel is loaded with. */
  const LpitLoad: U32 := 0xFFFF_FFFF

  /** One pass of a poll: the polled register as read, then the LPIT CVAL as read. */
  datatype PollSample = PollSample(reg: bv32, cval: U32)

  /** Ticks elapsed since the channel was loaded. */
  function Elapsed(cval: U32): U32 {
    LpitLoad - cval
  }

  predicate Expired(s: PollSample) {
    Elapsed(s.cval) >= CyclesTimeout
  }

  /** The flag is in the awaited state: set for the _Set flavour, clear for _Clear. */
  predicate FlagReached(s: PollSample, mask: bv32, wantSet: bool) {
    if wantSet then s.reg & mask != 0 else s.reg & mask == 0
  }

  /** The timer runs out at some pass of the trace. */
  ghost predicate TimerExpires(trace: seq<PollSample>) {
    exists k :: 0 <= k < |trace| && Expired(trace[k])
  }

  /** Pass `k` sees the flag, and every earlier pass saw neither the flag nor the deadline. */
  ghost predicate SucceedsAt(trace: seq<PollSample>, mask: bv32, wantSet: bool, k: int) {
    && 0 <= k < |trace|
    && FlagReached(trace[k], mask, wantSet)
    && forall j :: 0 <= j < k ==> !FlagReached(trace[j], mask, wantSet) && !Expired(trace[j])
  }

  /** Outcome of a poll over a trace: Success iff the flag is seen before the deadline. */
  ghost function PollOutcome(trace: seq<PollSample>, mask: bv32, wantSet: bool): Status {
    if exists k :: SucceedsAt(trace, mask, wantSet, k) then Success else Failure
  }

  /**
   * The first pass that sees the flag or the deadline decides the poll: Success
   * if it saw the flag (the flag is checked before the timer), Failure otherwise.
   */
  lemma PollDecidedAt(trace: seq<PollSample>, mask: bv32, wantSet: bool, k: nat)
    requires k < |trace|
    requires FlagReached(trace[k], mask, wantSet) || Expired(trace[k])
    requires forall j :: 0 <= j < k ==> !FlagReached(trace[j], mask, wantSet) && !Expired(trace[j])
    ensures PollOutcome(trace, mask, wantSet) == if FlagReached(trace[k], mask, wantSet) then Success else Failure
  {
    if FlagReached(trace[k], mask, wantSet) {
      assert SucceedsAt(trace, mask, wantSet, k);
    } else {
      forall i | 0 <= i < |trace|
        ensures !SucceedsAt(trace, mask, wantSet, i)
      {
        if i > k {
          assert Expired(trace[k]);
        }
      }
    }
  }

  /** Passes 0..k-1 missed the flag, and passes before the last of them missed the deadline. */
  ghost predicate Undecided(trace: seq<PollSample>, mask: bv32, wantSet: bool, k: nat)
    requires k <= |trace|
  {
    && (forall j :: 0 <= j < k ==> !FlagReached(trace[j], mask, wantSet))
    && (forall j :: 0 <= j < k - 1 ==> !Expired(trace[j]))
  }

  /** One more pass that missed the flag, after a pass that missed the deadline, keeps the poll undecided. */
  lemma UndecidedStep(trace: seq<PollSample>, mask: bv32, wantSet: bool, k: nat)
    requires k < |trace| && Undecided(trace, mask, wantSet, k)
    requires !FlagReached(trace[k], mask, wantSet)
    requires k > 0 ==> !Expired(trace[k - 1])
    ensures Undecided(trace, mask, wantSet, k + 1)
  {
  }

  /** The sample index the loop may read next lies inside the trace. */
  lemma NextSampleExists(trace: seq<PollSample>, k: nat)
    requires TimerExpires(trace)
    requires forall j :: 0 <= j < k && j < |trace| ==> !Expired(trace[j])
    ensures k < |trace|
  {
    var e :| 0 <= e < |trace| && Expired(trace[e]);
  }

  /** flagPollTimeout_Set: wait until `reg & mask` is non-zero or the timer runs out. */
  method FlagPollTimeoutSet(trace: seq<PollSample>, flagMask: bv32) returns (status: Status)
    requires TimerExpires(trace)
    ensures status == Success || status == Failure
    ensures status == PollOutcome(trace, flagMask, true)
  {
    var delta: U32 := 0;
    var k: nat := 0;
    while delta < CyclesTimeout
      invariant k <= |trace|
      invariant k == 0 ==> delta == 0
      invariant k > 0 ==> delta == Elapsed(trace[k - 1].cval)
      invariant Undecided(trace, flagMask, true, k)
      decreases |trace| - k
    {
      NextSampleExists(trace, k);
      if FlagReached(trace[k], flagMask, true) {
        PollDecidedAt(trace, flagMask, true, k);
        return Success;
      }
      UndecidedStep(trace, flagMask, true, k);
      delta := Elapsed(trace[k].cval);
      k := k + 1;
    }
    PollDecidedAt(trace, flagMask, true, k - 1);
    return Failure;
  }

  /** flagPollTimeout_Clear: wait until `reg & mask` is zero or the timer runs out. */
  method FlagPollTimeoutClear(trace: seq<PollSample>, flagMask: bv32) returns (status: Status)
    requires TimerExpires(trace)
    ensures status == Success || status == Failure
    ensures status == PollOutcome(trace, flagMask, false)
  {
    var delta: U32 := 0;
    var k: nat := 0;
    while delta < CyclesTimeout
      invariant k <= |trace|
      invariant k == 0 ==> delta == 0
      invariant k > 0 ==> delta == Elapsed(trace[k - 1].cval)
      invariant Undecided(trace, flagMask, false, k)
      decreases |trace| - k
    {
      NextSampleExists(trace, k);
      if FlagReached(trace[k], flagMask, false) {
        PollDecidedAt(trace, flagMask, false, k);
        return Success;
      }
      UndecidedStep(trace, flagMask, false, k);
      delta := Elapsed(trace[k].cval);
      k := k + 1;
    }
    PollDecidedAt(trace, flagMask, false, k - 1);
    return Failure;
  }
}
