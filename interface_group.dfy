/**
 * S32K_InterfaceGroup: the FlexCAN instances together with one reception queue
 * and one discard counter per instance, the receive ISR that fills the queues
 * and the media-layer operations read, write, reconfigureFilters and select.
 * The ISR runs as one atomic step between the other operations.
 */
module InterfaceGroups {
  import opened CanTypes
  import opened Registers
  import opened FrameCodec
  import opened TimedPolls
  import Timestamp
  import opened FlexCanDevice
  import opened RxQueue

  /**
   * The status a loop over instances ends with when instance i would end with
   * outcomes[i] and the loop stops acting once the status is not a success.
   */
  function StatusAfter(outcomes: seq<Status>, n: nat): Status
    requires n <= |outcomes|
  {
    if n == 0 then Success
    else if StatusAfter(outcomes, n - 1) == Success then outcomes[n - 1]
    else StatusAfter(outcomes, n - 1)
  }

  /**
   * The loop succeeds exactly when every instance succeeded, and otherwise
   * reports the first instance's failure.
   */
  lemma {:induction false} StatusAfterFirstFailure(outcomes: seq<Status>, n: nat)
    requires n <= |outcomes|
    ensures StatusAfter(outcomes, n) == Success <==> forall i :: 0 <= i < n ==> outcomes[i] == Success
    ensures StatusAfter(outcomes, n) != Success ==>
              exists i :: 0 <= i < n && StatusAfter(outcomes, n) == outcomes[i] &&
                (forall j :: 0 <= j < i ==> outcomes[j] == Success)
  {
    if n > 0 {
      StatusAfterFirstFailure(outcomes, n - 1);
      if StatusAfter(outcomes, n - 1) == Success && outcomes[n - 1] != Success {
        assert StatusAfter(outcomes, n) == outcomes[n - 1];
      }
    }
  }

  /** The outcomes of the freeze-mode exit of every instance. */
  ghost function FreezeExitOutcomes(frzAcks: seq<seq<PollSample>>, notRdys: seq<seq<PollSample>>): (o: seq<Status>)
    requires |frzAcks| == CanfdCount && |notRdys| == CanfdCount
    ensures |o| == CanfdCount
  {
    seq(CanfdCount, i requires 0 <= i < CanfdCount => FreezeExitOutcome(frzAcks[i], notRdys[i]))
  }

  /**
   * The timeout of select as compared with LPIT ticks: the microsecond count
   * truncated to uint32 and used as a tick count, with no conversion between
   * the two units.
   */
  function SelectCycles(timeoutMicros: int): U32 {
    timeoutMicros % 0x1_0000_0000
  }

  /**
   * What one pass of select sees: for each instance, whether its reception
   * queue holds a frame and the ESR2 value read, then the LPIT channel 3 CVAL
   * read at the end of the pass. The ISR may queue frames and the hardware may
   * free a transmit mailbox while select waits, so every pass has its own view.
   */
  datatype SelectPass = SelectPass(queued: seq<bool>, esr2: seq<bv32>, cval: U32)

  predicate PassWellFormed(p: SelectPass) {
    |p.queued| == CanfdCount && |p.esr2| == CanfdCount
  }

  /** In pass `p`, instance `i` has a queued frame, or (unless ignored) IMB and VPS set in ESR2. */
  predicate InstanceReady(p: SelectPass, i: nat, ignoreWriteAvailable: bool) {
    || (i < |p.queued| && p.queued[i])
    || (!ignoreWriteAvailable && i < |p.esr2| && TxReady(p.esr2[i]))
  }

  ghost predicate PassReady(p: SelectPass, ignoreWriteAvailable: bool) {
    exists i :: 0 <= i < CanfdCount && InstanceReady(p, i, ignoreWriteAvailable)
  }

  /** Some pass reads a CVAL at which the select timeout has been counted. */
  ghost predicate SelectTimerExpires(passes: seq<SelectPass>, cycles: U32) {
    exists k :: 0 <= k < |passes| && Elapsed(passes[k].cval) >= cycles
  }

  /** Pass `k` finds a ready instance, and every earlier pass found none and ended before the timeout. */
  ghost predicate SelectSucceedsAt(passes: seq<SelectPass>, cycles: U32, ignoreWriteAvailable: bool, k: int) {
    && 0 <= k < |passes|
    && PassReady(passes[k], ignoreWriteAvailable)
    && forall j :: 0 <= j < k ==> !PassReady(passes[j], ignoreWriteAvailable) && Elapsed(passes[j].cval) < cycles
  }

  /** The sample select may read next lies inside the trace. */
  lemma SelectSampleExists(passes: seq<SelectPass>, cycles: U32, k: nat)
    requires SelectTimerExpires(passes, cycles)
    requires forall j :: 0 <= j < k && j < |passes| ==> Elapsed(passes[j].cval) < cycles
    ensures k < |passes|
  {
    var e :| 0 <= e < |passes| && Elapsed(passes[e].cval) >= cycles;
  }

  /**
   * The first pass that finds a ready instance, or whose CVAL shows the
   * timeout, decides select: the instances are polled before CVAL is read.
   */
  lemma SelectDecidedAt(passes: seq<SelectPass>, cycles: U32, ignoreWriteAvailable: bool, k: nat)
    requires k < |passes|
    requires PassReady(passes[k], ignoreWriteAvailable) || Elapsed(passes[k].cval) >= cycles
    requires forall j :: 0 <= j < k ==> !PassReady(passes[j], ignoreWriteAvailable) && Elapsed(passes[j].cval) < cycles
    ensures (exists n :: SelectSucceedsAt(passes, cycles, ignoreWriteAvailable, n)) <==> PassReady(passes[k], ignoreWriteAvailable)
  {
    if PassReady(passes[k], ignoreWriteAvailable) {
      assert SelectSucceedsAt(passes, cycles, ignoreWriteAvailable, k);
    } else {
      forall n | 0 <= n < |passes|
        ensures !SelectSucceedsAt(passes, cycles, ignoreWriteAvailable, n)
      {
        if n > k {
          assert Elapsed(passes[k].cval) >= cycles;
        }
      }
    }
  }

  /** One pass of select over the instances, stopping at the first ready one. */
  method PollPass(p: SelectPass, ignoreWriteAvailable: bool) returns (ready: bool)
    requires PassWellFormed(p)
    ensures ready == PassReady(p, ignoreWriteAvailable)
  {
    var i := 0;
    while i < CanfdCount
      invariant 0 <= i <= CanfdCount
      invariant forall j :: 0 <= j < i ==> !InstanceReady(p, j, ignoreWriteAvailable)
    {
      if p.queued[i] {
        assert InstanceReady(p, i, ignoreWriteAvailable);
        return true;
      } else if !ignoreWriteAvailable {
        if p.esr2[i] & Esr2Imb != 0 && p.esr2[i] & Esr2Vps != 0 {
          assert InstanceReady(p, i, ignoreWriteAvailable);
          return true;
        }
      }
      i := i + 1;
    }
    return false;
  }

  /** What reconfigureFilters can change or must keep of an instance. */
  datatype InstanceState = InstanceState(
    mcr: bv32, ram: seq<bv32>, masks: seq<bv32>,
    iflag1: bv32, imask1: bv32, esr2: bv32, timer: U32, clockGate: bool)

  ghost function StateOf(c: FlexCan): InstanceState
    reads c, c.ramn, c.rximr
  {
    InstanceState(c.mcr, c.ramn[..], c.rximr[..], c.iflag1, c.imask1, c.esr2, c.timer, c.clockGate)
  }

  /**
   * An instance after its pass of reconfigureFilters' loop, from state `s0`:
   * HALT|FRZ requested; if every earlier instance succeeded (`reached`) it is
   * also reprogrammed with the filters and released from freeze, otherwise its
   * mailbox RAM and masks are as they were. No other register changes.
   */
  ghost predicate Reconfigured(c: FlexCan, s0: InstanceState, filters: seq<Filter>, reached: bool)
    reads c, c.ramn, c.rximr
    requires |filters| <= FilterCount
  {
    && c.iflag1 == s0.iflag1 && c.imask1 == s0.imask1 && c.esr2 == s0.esr2 && c.timer == s0.timer
    && c.clockGate == s0.clockGate
    && if reached then
         && c.mcr == RequestFreezeExit(RequestFreeze(s0.mcr))
         && c.ramn[..] == FilterRam(filters) && c.rximr[..] == FilterMasks(filters)
       else
         c.mcr == RequestFreeze(s0.mcr) && c.ramn[..] == s0.ram && c.rximr[..] == s0.masks
  }

  /** The CAN-FD instances: one valid FlexCan per interface, no two sharing an object or a RAM array. */
  ghost predicate Instances(cs: seq<FlexCan>) {
    && |cs| == CanfdCount
    && (forall i :: 0 <= i < CanfdCount ==> cs[i].Valid())
    && (forall i, j :: 0 <= i < CanfdCount && 0 <= j < CanfdCount && i != j ==>
          && cs[i] != cs[j] && cs[i].ramn != cs[j].ramn && cs[i].rximr != cs[j].rximr
          && cs[i].ramn != cs[j].rximr)
  }

  /**
   * One pass of reconfigureFilters' instance loop: request HALT|FRZ and, if
   * the status so far is a success, reprogram the instance and take its
   * freeze-exit outcome as the new status.
   */
  method ReconfigureInstance(c: FlexCan, filters: seq<Filter>, frzAck: seq<PollSample>, notRdy: seq<PollSample>,
                             statusIn: Status)
    returns (status: Status)
    requires c.Valid() && |filters| <= FilterCount
    requires TimerExpires(frzAck) && TimerExpires(notRdy)
    modifies c, c.ramn, c.rximr
    ensures status == if IsSuccess(statusIn) then FreezeExitOutcome(frzAck, notRdy) else statusIn
    ensures Reconfigured(c, old(StateOf(c)), filters, IsSuccess(statusIn))
  {
    status := statusIn;
    c.EnterFreeze();
    if IsSuccess(status) {
      status := c.ReprogramFilters(filters, frzAck, notRdy);
    }
  }

  /**
   * The instance loop of reconfigureFilters: each instance in turn gets
   * HALT|FRZ requested; while every earlier instance succeeded it is also
   * reprogrammed and released from freeze, and its freeze-exit outcome
   * becomes the status. After the first failure the remaining instances keep
   * HALT|FRZ requested and are left frozen.
   */
  method ReconfigureAll(cs: seq<FlexCan>, filters: seq<Filter>, frzAcks: seq<seq<PollSample>>,
                        notRdys: seq<seq<PollSample>>)
    returns (status: Status)
    requires Instances(cs) && |filters| <= FilterCount
    requires |frzAcks| == CanfdCount && |notRdys| == CanfdCount
    requires forall i :: 0 <= i < CanfdCount ==> TimerExpires(frzAcks[i]) && TimerExpires(notRdys[i])
    modifies set i | 0 <= i < CanfdCount :: cs[i], set i | 0 <= i < CanfdCount :: cs[i].ramn,
             set i | 0 <= i < CanfdCount :: cs[i].rximr
    ensures status == StatusAfter(FreezeExitOutcomes(frzAcks, notRdys), CanfdCount)
    ensures forall i :: 0 <= i < CanfdCount ==>
              Reconfigured(cs[i], old(StateOf(cs[i])), filters,
                           StatusAfter(FreezeExitOutcomes(frzAcks, notRdys), i) == Success)
  {
    status := Success;
    ghost var outcomes := FreezeExitOutcomes(frzAcks, notRdys);
    var i := 0;
    while i < CanfdCount
      invariant 0 <= i <= CanfdCount
      invariant status == StatusAfter(outcomes, i)
      invariant status == Success || status == Failure
      invariant forall k :: 0 <= k < i ==>
                  Reconfigured(cs[k], old(StateOf(cs[k])), filters, StatusAfter(outcomes, k) == Success)
      invariant forall k :: i <= k < CanfdCount ==> StateOf(cs[k]) == old(StateOf(cs[k]))
    {
      status := ReconfigureInstance(cs[i], filters, frzAcks[i], notRdys[i], status);
      i := i + 1;
    }
  }

  class InterfaceGroup {
    const can: seq<FlexCan>
    var rxQueue: seq<seq<Frame>>
    var discarded: seq<nat>

    ghost predicate Valid()
      reads this
    {
      && Instances(can) && |rxQueue| == CanfdCount && |discarded| == CanfdCount
      && (forall i :: 0 <= i < CanfdCount ==> |rxQueue[i]| <= FrameCapacity + 1 && discarded[i] < Uint32Range)
      && (forall i, n :: 0 <= i < CanfdCount && 0 <= n < |rxQueue[i]| ==> rxQueue[i][n].WellFormed())
    }

    /** The statically initialised group: empty queues, zero discard counters. */
    constructor (instances: seq<FlexCan>)
      requires Instances(instances)
      ensures Valid() && can == instances
      ensures rxQueue == [[], []] && discarded == [0, 0]
    {
      can := instances;
      rxQueue := [[], []];
      discarded := [0, 0];
    }

    /** getInterfaceCount: one interface per CAN-FD capable instance. */
    function InterfaceCount(): (n: nat)
      requires Valid()
      reads this
      ensures n == |can| == |rxQueue| == |discarded|
    {
      CanfdCount
    }

    /**
     * S32K_libuavcan_ISR_handler: when IFLAG1 names exactly one receive
     * mailbox, queue its frame if the queue is under the guard, or count a
     * discarded frame, and write the mailbox's flag back. Otherwise nothing.
     */
    method IsrHandler(instance: nat, lpit: Timestamp.LpitClock)
      requires Valid() && instance < CanfdCount
      modifies this, can[instance]
      ensures Valid()
      ensures var mb := MailboxOfFlags(old(can[instance].iflag1));
              && (mb == 0 ==> rxQueue == old(rxQueue) && discarded == old(discarded)
                              && can[instance].iflag1 == old(can[instance].iflag1))
              && (mb != 0 ==>
                    && rxQueue == old(rxQueue)[instance := Admit(old(rxQueue[instance]),
                         ReceivedFrame(old(can[instance].ramn[..]), mb, old(can[instance].timer), lpit))]
                    && discarded == old(discarded)[instance := CountDiscard(old(rxQueue[instance]), old(discarded[instance]))]
                    && can[instance].iflag1 == old(can[instance].iflag1) | MailboxFlag(mb))
      ensures can[instance].mcr == old(can[instance].mcr) && can[instance].imask1 == old(can[instance].imask1)
      ensures can[instance].esr2 == old(can[instance].esr2) && can[instance].timer == old(can[instance].timer)
      ensures can[instance].clockGate == old(can[instance].clockGate)
    {
      var flexcan := can[instance];
      var mbIndex := MailboxOfFlags(flexcan.iflag1);
      if mbIndex != 0 {
        ReceiveOrDiscard(instance, mbIndex, lpit);
        SetFlag(flexcan, mbIndex);
      }
    }

    /** The ISR's capacity guard: queue the mailbox's frame, or count it as discarded. */
    method ReceiveOrDiscard(instance: nat, mb: nat, lpit: Timestamp.LpitClock)
      requires Valid() && instance < CanfdCount && 2 <= mb <= MaxMailbox
      modifies this
      ensures Valid()
      ensures rxQueue == old(rxQueue)[instance := Admit(old(rxQueue[instance]),
                ReceivedFrame(can[instance].ramn[..], mb, can[instance].timer, lpit))]
      ensures discarded == old(discarded)[instance := CountDiscard(old(rxQueue[instance]), old(discarded[instance]))]
    {
      if |rxQueue[instance]| <= FrameCapacity {
        var frame := can[instance].ReadReceiveMailbox(mb, lpit);
        rxQueue := rxQueue[instance := rxQueue[instance] + [frame]];
      } else {
        discarded := discarded[instance := (discarded[instance] + 1) % Uint32Range];
      }
    }

    /** IFLAG1 |= 1 << mb. */
    static method SetFlag(flexcan: FlexCan, mb: nat)
      requires mb <= MaxMailbox
      modifies flexcan
      ensures flexcan.iflag1 == old(flexcan.iflag1) | MailboxFlag(mb)
      ensures flexcan.mcr == old(flexcan.mcr) && flexcan.imask1 == old(flexcan.imask1)
      ensures flexcan.esr2 == old(flexcan.esr2) && flexcan.timer == old(flexcan.timer)
      ensures flexcan.clockGate == old(flexcan.clockGate)
    {
      flexcan.iflag1 := flexcan.iflag1 | MailboxFlag(mb);
    }

    /**
     * read: with a 1-based interface index, hand out the oldest queued frame
     * of that interface and remove it; SuccessNothing on an empty queue,
     * BadArgument for an index past the last interface.
     */
    method Read(interfaceIndex: nat) returns (status: Status, frame: Option<Frame>, framesRead: nat)
      requires Valid() && interfaceIndex >= 1
      modifies this
      ensures Valid() && discarded == old(discarded)
      ensures framesRead == if status == Success then RxFramesLen else 0
      ensures interfaceIndex > CanfdCount ==> status == BadArgument && frame == None && rxQueue == old(rxQueue)
      ensures interfaceIndex <= CanfdCount && |old(rxQueue)[interfaceIndex - 1]| == 0 ==>
                status == SuccessNothing && frame == None && rxQueue == old(rxQueue)
      ensures interfaceIndex <= CanfdCount && |old(rxQueue)[interfaceIndex - 1]| != 0 ==>
                && status == Success
                && frame == Some(old(rxQueue)[interfaceIndex - 1][0])
                && rxQueue == old(rxQueue)[interfaceIndex - 1 := old(rxQueue)[interfaceIndex - 1][1..]]
    {
      status := SuccessNothing;
      framesRead := 0;
      frame := None;
      if interfaceIndex > CanfdCount {
        status := BadArgument;
      }
      if IsSuccess(status) {
        var q := rxQueue[interfaceIndex - 1];
        if |q| != 0 {
          frame := Some(q[0]);
          rxQueue := rxQueue[interfaceIndex - 1 := q[1..]];
          framesRead := RxFramesLen;
          status := Success;
        }
      }
    }

    /**
     * write: when ESR2 reports an inactive mailbox with valid priority,
     * transmit frames[0] into mailbox LPTM and report one frame written on
     * success, none on failure; otherwise leave everything as it was and
     * report BufferFull, or BadArgument for more frames than one write takes.
     * `framesWritten` is None where the driver leaves out_frames_written alone.
     */
    method Write(interfaceIndex: nat, frames: seq<Frame>, framesLen: nat, trace: seq<PollSample>)
      returns (status: Status, framesWritten: Option<nat>)
      requires Valid() && 1 <= interfaceIndex <= CanfdCount
      requires |frames| == TxFramesLen && frames[0].WellFormed()
      requires TxReady(can[interfaceIndex - 1].esr2) ==> Esr2Lptm(can[interfaceIndex - 1].esr2) <= MaxMailbox
      requires TimerExpires(trace)
      modifies can[interfaceIndex - 1], can[interfaceIndex - 1].ramn
      ensures Valid()
      ensures var c := can[interfaceIndex - 1];
              !TxReady(old(c.esr2)) ==>
                && status == (if framesLen > TxFramesLen then BadArgument else BufferFull)
                && framesWritten == None
                && c.ramn[..] == old(c.ramn[..]) && c.iflag1 == old(c.iflag1)
      ensures var c := can[interfaceIndex - 1];
              TxReady(old(c.esr2)) ==>
                var mb := Esr2Lptm(old(c.esr2));
                && status == PollOutcome(trace, MailboxFlag(mb), true)
                && c.ramn[..] == WriteMailbox(old(c.ramn[..]), mb, frames[0])
                && c.iflag1 == old(c.iflag1) | MailboxFlag(mb)
                && framesWritten == Some(if IsSuccess(status) then TxFramesLen else 0)
      ensures var c := can[interfaceIndex - 1];
              && c.mcr == old(c.mcr) && c.esr2 == old(c.esr2) && c.imask1 == old(c.imask1)
              && c.timer == old(c.timer) && c.clockGate == old(c.clockGate) && c.rximr[..] == old(c.rximr[..])
    {
      status := BufferFull;
      framesWritten := None;
      if framesLen > TxFramesLen || interfaceIndex > CanfdCount {
        status := BadArgument;
      }
      var flexcan := can[interfaceIndex - 1];
      if flexcan.esr2 & Esr2Imb != 0 && flexcan.esr2 & Esr2Vps != 0 {
        var mbIndex := Esr2Lptm(flexcan.esr2);
        status := flexcan.TransmitMessageBuffer(mbIndex, frames[0], trace);
        framesWritten := Some(if IsSuccess(status) then TxFramesLen else 0);
      }
    }

    /**
     * reconfigureFilters: more filters than receive mailboxes is BadArgument
     * and touches nothing; otherwise the instance loop runs.
     */
    method ReconfigureFilters(filters: seq<Filter>, frzAcks: seq<seq<PollSample>>, notRdys: seq<seq<PollSample>>)
      returns (status: Status)
      requires Valid()
      requires |frzAcks| == CanfdCount && |notRdys| == CanfdCount
      requires forall i :: 0 <= i < CanfdCount ==> TimerExpires(frzAcks[i]) && TimerExpires(notRdys[i])
      modifies set i | 0 <= i < CanfdCount :: can[i], set i | 0 <= i < CanfdCount :: can[i].ramn,
               set i | 0 <= i < CanfdCount :: can[i].rximr
      ensures Valid()
      ensures |filters| > FilterCount ==> status == BadArgument
      ensures |filters| > FilterCount ==> forall i :: 0 <= i < CanfdCount ==> StateOf(can[i]) == old(StateOf(can[i]))
      ensures |filters| <= FilterCount ==> status == StatusAfter(FreezeExitOutcomes(frzAcks, notRdys), CanfdCount)
      ensures |filters| <= FilterCount ==> forall i :: 0 <= i < CanfdCount ==>
                Reconfigured(can[i], old(StateOf(can[i])), filters,
                             StatusAfter(FreezeExitOutcomes(frzAcks, notRdys), i) == Success)
    {
      if |filters| > FilterCount {
        return BadArgument;
      }
      status := ReconfigureAll(can, filters, frzAcks, notRdys);
    }

    /**
     * select: poll the queues (and, unless ignored, the transmit readiness of
     * ESR2) of every instance until one is ready or LPIT channel 3 has counted
     * the timeout, truncated to uint32, since the start. `passes` holds what
     * each pass reads. Frames only join the queues while select waits, so a
     * frame queued at the start is seen by every pass.
     */
    method Select(timeoutMicros: int, ignoreWriteAvailable: bool, passes: seq<SelectPass>) returns (status: Status)
      requires Valid()
      requires forall k :: 0 <= k < |passes| ==> PassWellFormed(passes[k])
      requires forall k, i :: 0 <= k < |passes| && 0 <= i < CanfdCount && |rxQueue[i]| != 0 ==>
                 i < |passes[k].queued| && passes[k].queued[i]
      requires SelectCycles(timeoutMicros) == 0 || SelectTimerExpires(passes, SelectCycles(timeoutMicros))
      ensures status == Success || status == SuccessTimeout
      ensures status == Success <==>
                SelectCycles(timeoutMicros) != 0 &&
                exists k :: SelectSucceedsAt(passes, SelectCycles(timeoutMicros), ignoreWriteAvailable, k)
      ensures SelectCycles(timeoutMicros) != 0 && (exists i :: 0 <= i < CanfdCount && |rxQueue[i]| != 0) ==>
                status == Success
    {
      var cycles := SelectCycles(timeoutMicros);
      if cycles != 0 && (exists i :: 0 <= i < CanfdCount && |rxQueue[i]| != 0) {
        ghost var e :| 0 <= e < |passes| && Elapsed(passes[e].cval) >= cycles;
        ghost var i :| 0 <= i < CanfdCount && |rxQueue[i]| != 0;
        assert InstanceReady(passes[0], i, ignoreWriteAvailable);
        assert SelectSucceedsAt(passes, cycles, ignoreWriteAvailable, 0);
      }
      var delta: U32 := 0;
      var k: nat := 0;
      while delta < cycles
        invariant k <= |passes|
        invariant k == 0 ==> delta == 0
        invariant k > 0 ==> delta == Elapsed(passes[k - 1].cval)
        invariant forall j :: 0 <= j < k ==> !PassReady(passes[j], ignoreWriteAvailable)
        invariant forall j :: 0 <= j < k - 1 ==> Elapsed(passes[j].cval) < cycles
        decreases |passes| - k
      {
        SelectSampleExists(passes, cycles, k);
        var ready := PollPass(passes[k], ignoreWriteAvailable);
        if ready {
          SelectDecidedAt(passes, cycles, ignoreWriteAvailable, k);
          return Success;
        }
        delta := Elapsed(passes[k].cval);
        k := k + 1;
      }
      if k > 0 {
        SelectDecidedAt(passes, cycles, ignoreWriteAvailable, k - 1);
      }
      return SuccessTimeout;
    }
  }
}
