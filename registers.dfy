/**
 * Bit fields of the FlexCAN registers and message buffer words that the driver
 * reads and writes. The mask and shift values are those of the S32K14x device
 * header macros (CAN_MCR_*, CAN_ESR2_*, CAN_WMBn_*, CAN_RAMn_DATA_BYTE_*).
 */
module Registers {
  import opened CanTypes

  // Module Configuration Register
  const McrMdis: bv32 := 0x8000_0000
  const McrFrz: bv32 := 0x4000_0000
  const McrHalt: bv32 := 0x1000_0000
  const McrNotRdy: bv32 := 0x0800_0000
  const McrFrzAck: bv32 := 0x0100_0000
  const McrLpmAck: bv32 := 0x0010_0000
  const McrSrxDis: bv32 := 0x0002_0000
  const McrIrmq: bv32 := 0x0001_0000
  const McrFden: bv32 := 0x0000_0800
  const McrMaxMbMask: bv32 := 0x7F

  // Error and Status Register 2
  const Esr2Imb: bv32 := 0x2000
  const Esr2Vps: bv32 := 0x4000
  const Esr2LptmMask: bv32 := 0x7F_0000

  // Message buffer word fields
  const IdMask: bv32 := 0x1FFF_FFFF
  const CsDlcMask: bv32 := 0x000F_0000
  const CsTimeStampMask: bv32 := 0xFFFF

  /** Receive mailboxes 2..6 in IFLAG1 (0b1111100). */
  const RxMailboxFlags: bv32 := 124

  /** CAN_RAMn_DATA_BYTE_0: bits 31..24. */
  function DataByte0(x: bv32): bv32 { (x << 24) & 0xFF00_0000 }
  /** CAN_RAMn_DATA_BYTE_1: bits 23..16. */
  function DataByte1(x: bv32): bv32 { (x << 16) & 0x00FF_0000 }
  /** CAN_WMBn_CS_DLC: bits 19..16. */
  function CsDlc(x: bv32): bv32 { (x << 16) & CsDlcMask }
  /** CAN_MCR_MAXMB. */
  function McrMaxMb(x: bv32): bv32 { x & McrMaxMbMask }

  /** Control word of a transmit mailbox: EDL, BRS, code 0xC, IDE, and the DLC. */
  function CsTransmit(dlc: Dlc): bv32 {
    DataByte1(0x20) | CsDlc(dlc as bv32) | DataByte0(0xCC)
  }

  /** Control word of an empty, active receive mailbox: EDL, BRS, code 0x4, IDE. */
  const CsReceiveEmpty: bv32 := DataByte0(0xC4) | DataByte1(0x20)

  /** Fields of a control and status word. */
  function CsCode(cs: bv32): bv32 { (cs >> 24) & 0xF }
  function CsEdl(cs: bv32): bool { cs & 0x8000_0000 != 0 }
  function CsBrs(cs: bv32): bool { cs & 0x4000_0000 != 0 }
  function CsIde(cs: bv32): bool { cs & 0x0020_0000 != 0 }
  function CsDlcOf(cs: bv32): Dlc { ((cs & CsDlcMask) >> 16) as nat }

  /** Bit of message buffer `mb` in IFLAG1 / IMASK1. */
  function MailboxFlag(mb: nat): bv32
    requires mb < 32
  {
    (1 as bv32) << mb
  }

  /**
   * The ISR's MB_bit_to_index switch: the receive mailbox signalled by IFLAG1,
   * or 0 when the receive bits are not exactly one of 0x4 .. 0x40.
   */
  function MailboxOfFlags(iflag1: bv32): (mb: nat)
    ensures mb == 0 || 2 <= mb <= MaxMailbox
  {
    var rx := iflag1 & RxMailboxFlags;
    if rx == 0x4 then 2
    else if rx == 0x8 then 3
    else if rx == 0x10 then 4
    else if rx == 0x20 then 5
    else if rx == 0x40 then 6
    else 0
  }

  /** The LPTM field of ESR2: lowest-numbered inactive transmit mailbox. */
  function Esr2Lptm(esr2: bv32): nat {
    ((esr2 & Esr2LptmMask) >> 16) as nat
  }

  /** ESR2 reports an inactive mailbox with a valid priority status. */
  predicate TxReady(esr2: bv32) {
    esr2 & Esr2Imb != 0 && esr2 & Esr2Vps != 0
  }

  /** The ISR acts exactly when one receive-mailbox bit is pending, and then names that mailbox. */
  lemma MailboxOfFlagsExact(iflag1: bv32)
    ensures MailboxOfFlags(iflag1) != 0 <==>
              exists mb :: 2 <= mb <= MaxMailbox && iflag1 & RxMailboxFlags == MailboxFlag(mb)
    ensures MailboxOfFlags(iflag1) != 0 ==> iflag1 & RxMailboxFlags == MailboxFlag(MailboxOfFlags(iflag1))
  {
    if MailboxOfFlags(iflag1) != 0 {
      var mb := MailboxOfFlags(iflag1);
      assert iflag1 & RxMailboxFlags == MailboxFlag(mb);
    } else {
      forall mb | 2 <= mb <= MaxMailbox
        ensures iflag1 & RxMailboxFlags != MailboxFlag(mb)
      {
        assert mb == 2 || mb == 3 || mb == 4 || mb == 5 || mb == 6;
      }
    }
  }

  /**
   * Two receive mailboxes flagged at once match no case of the switch: the
   * ISR services neither of them on that interrupt.
   */
  lemma SimultaneousFlagsIgnored(a: nat, b: nat)
    requires 2 <= a < b <= MaxMailbox
    ensures MailboxOfFlags(MailboxFlag(a) | MailboxFlag(b)) == 0
  {
  }

  /** Every mailbox a filter can be bound to is serviced by the ISR, and only those. */
  lemma ReceiveMailboxesMatchFilters(mb: nat)
    requires mb < 32
    ensures MailboxOfFlags(MailboxFlag(mb)) == if 2 <= mb < 2 + FilterCount then mb else 0
    ensures MailboxFlag(mb) & RxMailboxFlags != 0 <==> 2 <= mb < 2 + FilterCount
  {
  }

  /** The DLC field is read from the DLC bits only. */
  lemma DlcFieldDetermines(cs: bv32, other: bv32)
    requires cs & CsDlcMask == other & CsDlcMask
    ensures CsDlcOf(cs) == CsDlcOf(other)
  {
  }

  /** The only mailbox codes written are 0xC (transmit data frame) and 0x4 (receive, empty). */
  lemma ControlWordsLayout(dlc: Dlc)
    ensures CsCode(CsTransmit(dlc)) == 0xC && CsCode(CsReceiveEmpty) == 0x4
    ensures CsEdl(CsTransmit(dlc)) && CsBrs(CsTransmit(dlc)) && CsIde(CsTransmit(dlc))
    ensures CsEdl(CsReceiveEmpty) && CsBrs(CsReceiveEmpty) && CsIde(CsReceiveEmpty)
    ensures CsDlcOf(CsTransmit(dlc)) == dlc && CsDlcOf(CsReceiveEmpty) == 0
    ensures CsTransmit(dlc) & CsTimeStampMask == 0 && CsReceiveEmpty & CsTimeStampMask == 0
  {
  }
}
