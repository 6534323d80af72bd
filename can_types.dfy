/**
 * Shared vocabulary of the S32K CAN-FD media driver: the outcome codes of the
 * media layer, the driver's compile-time constants, the CAN FD data length
 * code table and the frame and filter values the transport library hands in.
 */
module CanTypes {

  datatype Option<T> = None | Some(value: T)

  /** A uint32 value used as a number (counter readings, tick counts). */
  type U32 = x: nat | x < 0x1_0000_0000

  /** The media layer's closed outcome set. */
  datatype Status =
    | Success
    | SuccessNothing
    | SuccessTimeout
    | Failure
    | BufferFull
    | BadArgument

  /** The library's isSuccess: every Success* code is a success. */
  predicate IsSuccess(s: Status) {
    s == Success || s == SuccessNothing || s == SuccessTimeout
  }

  /** Number of CAN-FD capable FlexCAN instances (S32K146). */
  const CanfdCount: nat := 2
  /** Capacity constant of the reception queue (the ISR guard is `<=` it). */
  const FrameCapacity: nat := 40
  /** Filters (receive mailboxes) per FlexCAN instance. */
  const FilterCount: nat := 5
  /** Words between consecutive message buffers in FlexCAN RAM. */
  const MbSizeWords: nat := 18
  /** Offset of the payload inside a message buffer, in words. */
  const MbDataOffset: nat := 2
  /** Length of the FlexCAN message buffer RAM (CAN_RAMn_COUNT). */
  const RamWords: nat := 128
  /** Number of individual reception mask registers (CAN_RXIMR_COUNT). */
  const RximrCount: nat := 32
  /** Highest message buffer configured by MAXMB(6). */
  const MaxMailbox: nat := 6
  /** Payload buffer size of a CAN FD frame. */
  const MaxFrameBytes: nat := 64
  /** Frames accepted by one write and returned by one read. */
  const TxFramesLen: nat := 1
  const RxFramesLen: nat := 1

  type Dlc = d: nat | d < 16

  /**
   * CAN FD data length code to payload length (ISO 11898-1:2015, table 5):
   * codes 0..8 are the byte count, 9..15 map to 12, 16, 20, 24, 32, 48, 64.
   */
  function DlcToLength(dlc: Dlc): (len: nat)
    ensures len <= MaxFrameBytes
    ensures dlc <= 8 <==> len == dlc
    ensures dlc > 8 ==> len > 8 && len % 4 == 0
  {
    if dlc <= 8 then dlc
    else if dlc == 9 then 12
    else if dlc == 10 then 16
    else if dlc == 11 then 20
    else if dlc == 12 then 24
    else if dlc == 13 then 32
    else if dlc == 14 then 48
    else 64
  }

  /** The smallest code whose length holds `len` bytes (the standard's rounding up). */
  function LengthToDlc(len: nat): (dlc: Dlc)
    requires len <= MaxFrameBytes
    ensures len <= DlcToLength(dlc)
    ensures dlc > 0 ==> DlcToLength(dlc - 1) < len
  {
    if len <= 8 then len
    else if len <= 12 then 9
    else if len <= 16 then 10
    else if len <= 20 then 11
    else if len <= 24 then 12
    else if len <= 32 then 13
    else if len <= 48 then 14
    else 15
  }

  /** A CAN FD frame: 29-bit id, 64-byte payload buffer, length code, timestamp in microseconds. */
  datatype Frame = Frame(id: bv32, data: seq<bv8>, dlc: Dlc, timestamp: nat)
  {
    predicate WellFormed() {
      |data| == MaxFrameBytes
    }

    function DataLength(): nat {
      DlcToLength(dlc)
    }
  }

  /** An acceptance filter: mask bits set to 1 must match the id. */
  datatype Filter = Filter(id: bv32, mask: bv32)

  lemma DlcTableRoundTrip(dlc: Dlc)
    ensures LengthToDlc(DlcToLength(dlc)) == dlc
    ensures DlcToLength(LengthToDlc(DlcToLength(dlc))) == DlcToLength(dlc)
  {
  }

  lemma DlcToLengthStrictlyIncreasing(a: Dlc, b: Dlc)
    requires a < b
    ensures DlcToLength(a) < DlcToLength(b)
  {
  }
}
