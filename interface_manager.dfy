/**
 * S32K_InterfaceManager: the factory that brings the FlexCAN instances up
 * with a set of filters and hands out the one interface group object, and
 * that shuts the instances down again.
 */
module InterfaceManagers {
  import opened CanTypes
  import opened Registers
  import opened TimedPolls
  import opened FlexCanDevice
  import opened InterfaceGroups

  /** The low-power acknowledge outcome of every instance's disable request. */
  ghost function StopOutcomes(lpmAcks: seq<seq<PollSample>>): (o: seq<Status>)
    requires |lpmAcks| == CanfdCount
    ensures |o| == CanfdCount
  {
    seq(CanfdCount, i requires 0 <= i < CanfdCount => PollOutcome(lpmAcks[i], McrLpmAck, true))
  }

  /** An instance as the start sequence leaves it. */
  ghost predicate Started(c: FlexCan, mcr0: bv32, filters: seq<Filter>)
    reads c, c.ramn, c.rximr
    requires |filters| <= FilterCount
  {
    && c.clockGate && c.mcr == StartedMcr(mcr0) && c.imask1 == RxMailboxFlags
    && c.ramn[..] == FilterRam(filters) && c.rximr[..] == FilterMasks(filters)
  }

  /** An instance the start sequence has not reached yet. */
  ghost predicate NotStarted(c: FlexCan, mcr0: bv32, imask0: bv32, gate0: bool, ram0: seq<bv32>, masks0: seq<bv32>)
    reads c, c.ramn, c.rximr
  {
    c.clockGate == gate0 && c.mcr == mcr0 && c.imask1 == imask0 && c.ramn[..] == ram0 && c.rximr[..] == masks0
  }

  /** The registers neither start nor stop writes. */
  ghost predicate SameHardwareState(c: FlexCan, iflag1: bv32, esr2: bv32, timer: U32)
    reads c
  {
    c.iflag1 == iflag1 && c.esr2 == esr2 && c.timer == timer
  }

  /** An instance after its pass of the stop loop, given the status after that pass. */
  ghost predicate Stopped(c: FlexCan, mcr0: bv32, gate0: bool, imask0: bv32, statusAfter: Status)
    reads c
  {
    && c.mcr == mcr0 | McrMdis && c.imask1 == imask0
    && c.clockGate == (if statusAfter == Success then false else gate0)
  }

  class InterfaceManager {
    /** S32K_InterfaceGroupObj_: the one group object the manager hands out. */
    const group: InterfaceGroup

    ghost predicate Valid()
      reads group
    {
      group.Valid()
    }

    constructor (g: InterfaceGroup)
      requires g.Valid()
      ensures Valid() && group == g
    {
      group := g;
    }

    /**
     * getMaxFrameFilters: one filter per receive mailbox; the filter slots
     * are mailboxes 2 .. 2+n-1, exactly those enabled in IMASK1, and the ISR
     * services each of them.
     */
    method GetMaxFrameFilters() returns (n: nat)
      ensures n == FilterCount
      ensures forall mb: nat :: 2 <= mb < 2 + n ==> MailboxOfFlags(MailboxFlag(mb)) == mb
      ensures forall mb: nat :: mb < 32 ==> (MailboxFlag(mb) & RxMailboxFlags != 0 <==> 2 <= mb < 2 + n)
    {
      n := FilterCount;
      forall mb: nat | mb < 32
        ensures MailboxOfFlags(MailboxFlag(mb)) == if 2 <= mb < 2 + n then mb else 0
        ensures MailboxFlag(mb) & RxMailboxFlags != 0 <==> 2 <= mb < 2 + n
      {
        ReceiveMailboxesMatchFilters(mb);
      }
    }

    /**
     * The mailbox and filter part of startInterfaceGroup: every instance is
     * started with the filters, and the group object is handed out.
     */
    method StartInterfaceGroup(filters: seq<Filter>) returns (status: Status, outGroup: InterfaceGroup?)
      requires Valid() && |filters| <= FilterCount
      modifies group.can, set i | 0 <= i < CanfdCount :: group.can[i].ramn,
               set i | 0 <= i < CanfdCount :: group.can[i].rximr
      ensures Valid() && status == Success && outGroup == group
      ensures forall i :: 0 <= i < CanfdCount ==> Started(group.can[i], old(group.can[i].mcr), filters)
      ensures forall i :: 0 <= i < CanfdCount ==>
                SameHardwareState(group.can[i], old(group.can[i].iflag1), old(group.can[i].esr2), old(group.can[i].timer))
    {
      status := Success;
      outGroup := null;
      var can := group.can;
      var i := 0;
      while i < CanfdCount
        invariant 0 <= i <= CanfdCount
        invariant forall k :: 0 <= k < i ==> Started(can[k], old(can[k].mcr), filters)
        invariant forall k :: i <= k < CanfdCount ==>
                    NotStarted(can[k], old(can[k].mcr), old(can[k].imask1), old(can[k].clockGate),
                               old(can[k].ramn[..]), old(can[k].rximr[..]))
        invariant forall k :: 0 <= k < CanfdCount ==>
                    SameHardwareState(can[k], old(can[k].iflag1), old(can[k].esr2), old(can[k].timer))
      {
        can[i].Start(filters);
        i := i + 1;
      }
      outGroup := group;
    }

    /**
     * The per-instance loop of stopInterfaceGroup: every instance gets MDIS
     * requested; while the status is a success the instance's LPMACK is
     * awaited and its clock gated off. The group pointer is set to null.
     */
    method StopInterfaceGroup(lpmAcks: seq<seq<PollSample>>) returns (status: Status, outGroup: InterfaceGroup?)
      requires Valid()
      requires |lpmAcks| == CanfdCount && forall i :: 0 <= i < CanfdCount ==> TimerExpires(lpmAcks[i])
      modifies group.can
      ensures Valid() && outGroup == null
      ensures status == StatusAfter(StopOutcomes(lpmAcks), CanfdCount)
      ensures forall i :: 0 <= i < CanfdCount ==>
                Stopped(group.can[i], old(group.can[i].mcr), old(group.can[i].clockGate), old(group.can[i].imask1),
                        StatusAfter(StopOutcomes(lpmAcks), i + 1))
      ensures forall i :: 0 <= i < CanfdCount ==>
                SameHardwareState(group.can[i], old(group.can[i].iflag1), old(group.can[i].esr2), old(group.can[i].timer))
    {
      status := Success;
      ghost var outcomes := StopOutcomes(lpmAcks);
      var can := group.can;
      var i := 0;
      while i < CanfdCount
        invariant 0 <= i <= CanfdCount
        invariant status == StatusAfter(outcomes, i)
        invariant status == Success || status == Failure
        invariant forall k :: 0 <= k < i ==>
                    Stopped(can[k], old(can[k].mcr), old(can[k].clockGate), old(can[k].imask1), StatusAfter(outcomes, k + 1))
        invariant forall k :: i <= k < CanfdCount ==>
                    can[k].mcr == old(can[k].mcr) && can[k].clockGate == old(can[k].clockGate)
                    && can[k].imask1 == old(can[k].imask1)
        invariant forall k :: 0 <= k < CanfdCount ==>
                    SameHardwareState(can[k], old(can[k].iflag1), old(can[k].esr2), old(can[k].timer))
      {
        status := can[i].Stop(lpmAcks[i], status);
        i := i + 1;
      }
      outGroup := null;
    }
  }
}
