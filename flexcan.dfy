/**
 * One FlexCAN instance as the driver sees it: the registers it writes and
 * reads (MCR, IFLAG1, IMASK1, ESR2, TIMER), the clock gate in PCC, the
 * 128-word message buffer RAM and the 32 individual reception masks. The
 * fields hold what the driver last wrote; values the hardware changes on its
 * own while the driver busy-waits are supplied to the polls as traces.
 */
module FlexCanDevice {
  import opened CanTypes
  import opened Registers
  import opened FrameCodec
  import opened TimedPolls
  import Timestamp

  /** First word of message buffer `mb`. */
  function MailboxBase(mb: nat): nat {
    mb * MbSizeWords
  }

  /** Word `w` belongs to the control word (+0) or id word (+1) of receive mailbox 2..2+n-1. */
  predicate InFilterSlot(w: nat, n: nat) {
    2 <= w / MbSizeWords < 2 + n && w % MbSizeWords < 2
  }

  /**
   * Mailbox RAM after the filter loop has run for filters 0..n-1 over `ram`:
   * receive mailbox j+2 gets the empty-receive control word and filter j's id.
   */
  function LaidOut(ram: seq<bv32>, filters: seq<Filter>, n: nat): (r: seq<bv32>)
    requires n <= |filters|
    ensures |r| == |ram|
  {
    seq(|ram|, w requires 0 <= w < |ram| =>
      if InFilterSlot(w, n) then
        (if w % MbSizeWords == 0 then CsReceiveEmpty else filters[w / MbSizeWords - 2].id)
      else ram[w])
  }

  /** Reception masks after the filter loop: RXIMR[j+2] holds filter j's mask. */
  function MasksLaidOut(masks: seq<bv32>, filters: seq<Filter>, n: nat): (r: seq<bv32>)
    requires n <= |filters|
    ensures |r| == |masks|
  {
    seq(|masks|, k requires 0 <= k < |masks| => if 2 <= k < 2 + n then filters[k - 2].mask else masks[k])
  }

  function Zeros(n: nat): seq<bv32> {
    seq(n, _ => 0)
  }

  /** Mailbox RAM of an instance whose filters were (re)programmed. */
  function FilterRam(filters: seq<Filter>): seq<bv32> {
    LaidOut(Zeros(RamWords), filters, |filters|)
  }

  /** RXIMR of an instance whose filters were (re)programmed. */
  function FilterMasks(filters: seq<Filter>): seq<bv32> {
    MasksLaidOut(Zeros(RximrCount), filters, |filters|)
  }

  /** Mailbox RAM after the transmit path wrote `frame` into mailbox `mb`. */
  function WriteMailbox(ram: seq<bv32>, mb: nat, frame: Frame): (r: seq<bv32>)
    requires |ram| == RamWords && mb <= MaxMailbox && frame.WellFormed()
    ensures |r| == RamWords
  {
    var base := MailboxBase(mb);
    var enc := EncodeMailbox(frame);
    seq(RamWords, w requires 0 <= w < RamWords =>
      if base <= w < base + |enc| then enc[w - base] else ram[w])
  }

  /** The encoding word by word: control word, masked id, then the byte-reversed payload words. */
  lemma EncodedWords(frame: Frame)
    requires frame.WellFormed()
    ensures EncodeMailbox(frame)[0] == CsTransmit(frame.dlc)
    ensures EncodeMailbox(frame)[1] == frame.id & IdMask
    ensures forall k :: MbDataOffset <= k < |EncodeMailbox(frame)| ==>
              4 * (k - MbDataOffset) + 4 <= |frame.data| &&
              EncodeMailbox(frame)[k] == Rev32(LoadWordLE(frame.data, k - MbDataOffset))
  {
  }

  /** Swapping `word` back and reading it little-endian gives payload bytes 4i..4i+3. */
  predicate CarriesPayloadBytes(word: bv32, data: seq<bv8>, i: nat) {
    4 * i + 4 <= |data| && forall k :: 0 <= k < 4 ==> ByteOfWordLE(Rev32(word), k) == data[4 * i + k]
  }

  /**
   * Payload word `i` as messageBuffer_Transmit computes it: bytes 4i..4i+3,
   * little-endian, byte-reversed. Swapping the word back and reading it
   * little-endian gives those four payload bytes again.
   */
  method PayloadWord(frame: Frame, i: nat) returns (word: bv32)
    requires frame.WellFormed() && MbDataOffset + i < |EncodeMailbox(frame)|
    ensures word == EncodeMailbox(frame)[MbDataOffset + i]
    ensures CarriesPayloadBytes(word, frame.data, i)
  {
    EncodedWords(frame);
    word := Rev32(LoadWordLE(frame.data, i));
    Rev32Involution(LoadWordLE(frame.data, i));
    forall k | 0 <= k < 4
      ensures ByteOfWordLE(Rev32(word), k) == frame.data[4 * i + k]
    {
      ByteOfLoadedWord(frame.data, i, k);
    }
  }

  /**
   * The control word and the id word of a transmit mailbox: code 0xC (transmit
   * data frame), EDL, BRS and IDE set, the frame's DLC, and the id cut to 29 bits.
   */
  method HeaderWords(frame: Frame) returns (cs: bv32, id: bv32)
    requires frame.WellFormed()
    ensures cs == EncodeMailbox(frame)[0] && id == EncodeMailbox(frame)[1]
    ensures CsCode(cs) == 0xC && CsEdl(cs) && CsBrs(cs) && CsIde(cs) && CsDlcOf(cs) == frame.dlc
    ensures id & IdMask == id && id == frame.id & IdMask
  {
    EncodedWords(frame);
    cs := CsTransmit(frame.dlc);
    id := frame.id & IdMask;
    ControlWordsLayout(frame.dlc);
    IdMaskIdempotent(frame.id);
  }

  /** The 18 words of message buffer `mb`. */
  function MailboxWords(ram: seq<bv32>, mb: nat): (words: seq<bv32>)
    requires |ram| == RamWords && mb <= MaxMailbox
    ensures |words| == MbSizeWords
  {
    ram[MailboxBase(mb) .. MailboxBase(mb) + MbSizeWords]
  }

  /**
   * After filter programming, the mailboxes MAXMB(6) enables are: 0 and 1
   * inactive (transmit, all words zero), 2..2+|filters|-1 active for reception
   * (code 0x4) with filter j's id and mask in mailbox j+2, and the rest
   * inactive; every payload word is zero. The ISR services exactly the active
   * receive mailboxes.
   */
  lemma {:induction false} FilterLayout(filters: seq<Filter>, mb: nat)
    requires |filters| <= FilterCount && mb <= MaxMailbox
    ensures CsCode(MailboxWords(FilterRam(filters), mb)[0]) == 0x4 <==> 2 <= mb < 2 + |filters|
    ensures 2 <= mb < 2 + |filters| ==>
              && MailboxWords(FilterRam(filters), mb)[0] == CsReceiveEmpty
              && MailboxWords(FilterRam(filters), mb)[1] == filters[mb - 2].id
              && FilterMasks(filters)[mb] == filters[mb - 2].mask
              && MailboxOfFlags(MailboxFlag(mb)) == mb
    ensures !(2 <= mb < 2 + |filters|) ==>
              MailboxWords(FilterRam(filters), mb) == Zeros(MbSizeWords) && FilterMasks(filters)[mb] == 0
    ensures forall k :: MbDataOffset <= k < MbSizeWords ==> MailboxWords(FilterRam(filters), mb)[k] == 0
  {
    var words := MailboxWords(FilterRam(filters), mb);
    ControlWordsLayout(0);
    ReceiveMailboxesMatchFilters(mb);
    assert words[0] == FilterRam(filters)[MailboxBase(mb)];
    assert words[1] == FilterRam(filters)[MailboxBase(mb) + 1];
    if !(2 <= mb < 2 + |filters|) {
      assert words == Zeros(MbSizeWords);
    }
  }

  /** Only the words of mailbox `mb` that hold the encoding change; the rest of the RAM is kept. */
  lemma {:induction false} WriteMailboxFrame(ram: seq<bv32>, mb: nat, frame: Frame)
    requires |ram| == RamWords && mb <= MaxMailbox && frame.WellFormed()
    ensures var enc := EncodeMailbox(frame);
            && MailboxWords(WriteMailbox(ram, mb, frame), mb) == enc + ram[MailboxBase(mb) + |enc| .. MailboxBase(mb) + MbSizeWords]
            && forall w :: 0 <= w < RamWords && !(MailboxBase(mb) <= w < MailboxBase(mb) + |enc|) ==>
                 WriteMailbox(ram, mb, frame)[w] == ram[w]
  {
    var enc := EncodeMailbox(frame);
    var base := MailboxBase(mb);
    var r := WriteMailbox(ram, mb, frame);
    assert MailboxWords(r, mb) == enc + ram[base + |enc| .. base + MbSizeWords] by {
      forall k | 0 <= k < MbSizeWords
        ensures MailboxWords(r, mb)[k] == (enc + ram[base + |enc| .. base + MbSizeWords])[k]
      {
        assert MailboxWords(r, mb)[k] == r[base + k];
      }
    }
  }

  /**
   * A frame the transmit path wrote into a mailbox, read back from that
   * mailbox by the receive path, is the same frame: id masked to 29 bits, same
   * length code, same first DataLength() payload bytes and zeros after them.
   */
  lemma {:induction false} TransmitThenReceive(ram: seq<bv32>, mb: nat, frame: Frame, timestamp: nat)
    requires |ram| == RamWords && mb <= MaxMailbox && frame.WellFormed()
    ensures DecodeMailbox(MailboxWords(WriteMailbox(ram, mb, frame), mb), timestamp)
            == Frame(frame.id & IdMask, FramePayload(frame.data, frame.DataLength()), frame.dlc, timestamp)
  {
    var enc := EncodeMailbox(frame);
    var rest := ram[MailboxBase(mb) + |enc| .. MailboxBase(mb) + MbSizeWords];
    WriteMailboxFrame(ram, mb, frame);
    EncodeThenDecode(frame, rest, timestamp);
  }

  /**
   * Outcome of the freeze-mode exit of one instance: FRZACK must clear, and
   * then NOTRDY must clear, each before its poll times out.
   */
  ghost function FreezeExitOutcome(frzAck: seq<PollSample>, notRdy: seq<PollSample>): Status {
    if PollOutcome(frzAck, McrFrzAck, false) == Success then PollOutcome(notRdy, McrNotRdy, false) else Failure
  }

  /** HALT and FRZ together: the freeze-mode request. */
  const FreezeRequest: bv32 := McrHalt | McrFrz

  /** MCR after `MCR |= HALT | FRZ`: freeze mode requested. */
  function RequestFreeze(mcr: bv32): bv32 {
    mcr | FreezeRequest
  }

  /** MCR after `MCR &= ~(HALT | FRZ)`: freeze mode exit requested. */
  function RequestFreezeExit(mcr: bv32): bv32 {
    mcr & !FreezeRequest
  }

  /** Requesting freeze sets HALT and FRZ and keeps every other MCR bit. */
  lemma FreezeRequested(mcr: bv32)
    ensures RequestFreeze(mcr) & FreezeRequest == FreezeRequest
    ensures RequestFreeze(mcr) & !FreezeRequest == mcr & !FreezeRequest
  {
  }

  /** Requesting freeze and then its exit leaves HALT and FRZ clear and every other MCR bit as it was. */
  lemma FreezeRoundTrip(mcr: bv32)
    ensures RequestFreezeExit(RequestFreeze(mcr)) & FreezeRequest == 0
    ensures RequestFreezeExit(RequestFreeze(mcr)) & !FreezeRequest == mcr & !FreezeRequest
  {
  }

  /** MCR bits the start sequence writes. */
  const StartTouched: bv32 := McrMdis | McrFrz | McrHalt | McrFden | McrSrxDis | McrIrmq | McrMaxMbMask

  /**
   * MCR after the start sequence: module enabled, freeze requested, FDEN and
   * FRZ set, MAXMB replaced by 6, SRXDIS and IRMQ set, then HALT and FRZ cleared.
   */
  function StartedMcr(mcr: bv32): bv32 {
    var enabled := (mcr | McrMdis) & !McrMdis;
    var frozen := RequestFreeze(enabled);
    var fd := frozen | (McrFden | McrFrz);
    var mbs := (fd & !McrMaxMbMask) | (McrMaxMb(6) | McrSrxDis | McrIrmq);
    RequestFreezeExit(mbs)
  }

  /**
   * A started instance is enabled and out of freeze, runs CAN FD with
   * self-reception disabled and individual masking, has mailboxes 0..6, and
   * keeps every MCR bit the sequence does not write.
   */
  lemma StartedMcrFields(mcr: bv32)
    ensures McrMaxMb(StartedMcr(mcr)) == 6
    ensures StartedMcr(mcr) & (McrFden | McrSrxDis | McrIrmq) == McrFden | McrSrxDis | McrIrmq
    ensures StartedMcr(mcr) & (McrMdis | McrHalt | McrFrz) == 0
    ensures StartedMcr(mcr) & !StartTouched == mcr & !StartTouched
  {
  }

  /** Block for freeze mode exit (FRZACK clear), then, if that succeeded, for module ready (NOTRDY clear). */
  method WaitFreezeExit(frzAck: seq<PollSample>, notRdy: seq<PollSample>) returns (status: Status)
    requires TimerExpires(frzAck) && TimerExpires(notRdy)
    ensures status == Success || status == Failure
    ensures status == FreezeExitOutcome(frzAck, notRdy)
  {
    status := FlagPollTimeoutClear(frzAck, McrFrzAck);
    if IsSuccess(status) {
      status := FlagPollTimeoutClear(notRdy, McrNotRdy);
    }
  }

  /** The frame the ISR builds from receive mailbox `mb`, stamped by resolve_Timestamp. */
  function ReceivedFrame(ram: seq<bv32>, mb: nat, timer: U32, lpit: Timestamp.LpitClock): (f: Frame)
    requires |ram| == RamWords && 2 <= mb <= MaxMailbox
    ensures f.WellFormed()
  {
    var words := MailboxWords(ram, mb);
    DecodeMailbox(words, Timestamp.ResolveTimestamp(CapturedTime(words), timer, lpit))
  }

  class FlexCan {
    var mcr: bv32
    var iflag1: bv32
    var imask1: bv32
    var esr2: bv32
    var timer: U32
    /** CGC bit of this instance's PCC slot: the module is clocked. */
    var clockGate: bool
    const ramn: array<bv32>
    const rximr: array<bv32>

    ghost predicate Valid() {
      ramn.Length == RamWords && rximr.Length == RximrCount && ramn != rximr
    }

    /** An instance out of reset, with unclocked module and arbitrary mailbox RAM. */
    constructor (mcr0: bv32, esr20: bv32, ram0: seq<bv32>)
      requires |ram0| == RamWords
      ensures Valid() && fresh(ramn) && fresh(rximr)
      ensures mcr == mcr0 && esr2 == esr20 && iflag1 == 0 && imask1 == 0 && timer == 0 && !clockGate
      ensures ramn[..] == ram0
    {
      mcr, esr2, iflag1, imask1, timer, clockGate := mcr0, esr20, 0, 0, 0, false;
      ramn := new bv32[RamWords](w requires 0 <= w < RamWords => ram0[w]);
      rximr := new bv32[RximrCount];
    }

    /** The two clearing loops: every RAMn word and every RXIMR mask set to zero. */
    method ClearMailboxMemory()
      requires Valid()
      modifies ramn, rximr
      ensures ramn[..] == Zeros(RamWords) && rximr[..] == Zeros(RximrCount)
    {
      var j := 0;
      while j < RamWords
        invariant 0 <= j <= RamWords
        invariant forall w :: 0 <= w < j ==> ramn[w] == 0
      {
        ramn[j] := 0;
        j := j + 1;
      }
      j := 0;
      while j < RximrCount
        invariant 0 <= j <= RximrCount
        invariant forall w :: 0 <= w < RamWords ==> ramn[w] == 0
        invariant forall k :: 0 <= k < j ==> rximr[k] == 0
      {
        rximr[j] := 0;
        j := j + 1;
      }
    }

    /** The filter loop: mask, control word and id of receive mailbox j+2 for each filter j. */
    method LayOutFilters(filters: seq<Filter>)
      requires Valid() && |filters| <= FilterCount
      modifies ramn, rximr
      ensures ramn[..] == LaidOut(old(ramn[..]), filters, |filters|)
      ensures rximr[..] == MasksLaidOut(old(rximr[..]), filters, |filters|)
    {
      var j := 0;
      while j < |filters|
        invariant 0 <= j <= |filters|
        invariant ramn[..] == LaidOut(old(ramn[..]), filters, j)
        invariant rximr[..] == MasksLaidOut(old(rximr[..]), filters, j)
      {
        rximr[j + 2] := filters[j].mask;
        ramn[(j + 2) * MbSizeWords] := CsReceiveEmpty;
        ramn[(j + 2) * MbSizeWords + 1] := filters[j].id;
        j := j + 1;
      }
    }

    /**
     * The payload loop of messageBuffer_Transmit: word i of the payload, read
     * little-endian and byte-reversed, goes to word base+2+i of mailbox `mb`.
     */
    method WritePayloadWords(mb: nat, frame: Frame)
      requires Valid() && mb <= MaxMailbox && frame.WellFormed()
      modifies ramn
      ensures forall w :: 0 <= w < RamWords ==>
                ramn[w] == if MailboxBase(mb) + MbDataOffset <= w < MailboxBase(mb) + |EncodeMailbox(frame)|
                           then EncodeMailbox(frame)[w - MailboxBase(mb)] else old(ramn[w])
    {
      var len := frame.DataLength();
      var base := mb * MbSizeWords;
      ghost var enc := EncodeMailbox(frame);
      var i := 0;
      while i < WordCount(len)
        invariant 0 <= i <= WordCount(len) == |enc| - MbDataOffset
        invariant forall w :: 0 <= w < RamWords ==>
                    ramn[w] == if base + MbDataOffset <= w < base + MbDataOffset + i then enc[w - base] else old(ramn[w])
      {
        var word := PayloadWord(frame, i);
        ramn[base + MbDataOffset + i] := word;
        i := i + 1;
      }
    }

    /**
     * The mailbox writes of messageBuffer_Transmit: payload words, then the id
     * word, then the control word that hands the mailbox to the hardware.
     */
    method WriteTransmitMailbox(mb: nat, frame: Frame)
      requires Valid() && mb <= MaxMailbox && frame.WellFormed()
      modifies ramn
      ensures ramn[..] == WriteMailbox(old(ramn[..]), mb, frame)
    {
      ghost var ram0 := ramn[..];
      WritePayloadWords(mb, frame);
      ghost var ram1 := ramn[..];
      var cs, id := HeaderWords(frame);
      ramn[mb * MbSizeWords + 1] := id;
      ramn[mb * MbSizeWords] := cs;
      forall w | 0 <= w < RamWords
        ensures ramn[w] == WriteMailbox(ram0, mb, frame)[w]
      {
        if w != MailboxBase(mb) && w != MailboxBase(mb) + 1 {
          assert ramn[w] == ram1[w];
        }
      }
      assert ramn[..] == WriteMailbox(ram0, mb, frame);
    }

    /**
     * messageBuffer_Transmit: fill mailbox `mb`, poll IFLAG1 for the mailbox's
     * bit, and write the bit back whatever the poll returned.
     */
    method TransmitMessageBuffer(mb: nat, frame: Frame, trace: seq<PollSample>) returns (status: Status)
      requires Valid() && mb <= MaxMailbox && frame.WellFormed() && TimerExpires(trace)
      modifies this, ramn
      ensures ramn[..] == WriteMailbox(old(ramn[..]), mb, frame)
      ensures status == PollOutcome(trace, MailboxFlag(mb), true)
      ensures iflag1 == old(iflag1) | MailboxFlag(mb)
      ensures mcr == old(mcr) && imask1 == old(imask1) && esr2 == old(esr2)
      ensures timer == old(timer) && clockGate == old(clockGate) && rximr[..] == old(rximr[..])
    {
      WriteTransmitMailbox(mb, frame);
      status := FlagPollTimeoutSet(trace, MailboxFlag(mb));
      iflag1 := iflag1 | MailboxFlag(mb);
    }

    /** MCR |= bits. */
    method SetMcrBits(bits: bv32)
      modifies this
      ensures mcr == old(mcr) | bits
      ensures iflag1 == old(iflag1) && imask1 == old(imask1) && esr2 == old(esr2)
      ensures timer == old(timer) && clockGate == old(clockGate)
    {
      mcr := mcr | bits;
    }

    /** MCR &= ~bits. */
    method ClearMcrBits(bits: bv32)
      modifies this
      ensures mcr == old(mcr) & !bits
      ensures iflag1 == old(iflag1) && imask1 == old(imask1) && esr2 == old(esr2)
      ensures timer == old(timer) && clockGate == old(clockGate)
    {
      mcr := mcr & !bits;
    }

    /** MCR |= HALT | FRZ. */
    method EnterFreeze()
      modifies this
      ensures mcr == RequestFreeze(old(mcr))
      ensures iflag1 == old(iflag1) && imask1 == old(imask1) && esr2 == old(esr2)
      ensures timer == old(timer) && clockGate == old(clockGate)
    {
      mcr := mcr | FreezeRequest;
    }

    /** MCR &= ~(HALT | FRZ). */
    method ExitFreeze()
      modifies this
      ensures mcr == RequestFreezeExit(old(mcr))
      ensures iflag1 == old(iflag1) && imask1 == old(imask1) && esr2 == old(esr2)
      ensures timer == old(timer) && clockGate == old(clockGate)
    {
      mcr := mcr & !FreezeRequest;
    }

    /** Clearing loops followed by the filter loop. */
    method ProgramMailboxes(filters: seq<Filter>)
      requires Valid() && |filters| <= FilterCount
      modifies ramn, rximr
      ensures ramn[..] == FilterRam(filters) && rximr[..] == FilterMasks(filters)
    {
      ClearMailboxMemory();
      LayOutFilters(filters);
    }

    /**
     * One instance's share of reconfigureFilters once HALT|FRZ has been
     * requested: clear the mailbox RAM and masks, lay out the filters, request
     * freeze exit, then wait for FRZACK and, if that cleared, for NOTRDY.
     */
    method ReprogramFilters(filters: seq<Filter>, frzAck: seq<PollSample>, notRdy: seq<PollSample>)
      returns (status: Status)
      requires Valid() && |filters| <= FilterCount
      requires TimerExpires(frzAck) && TimerExpires(notRdy)
      modifies this, ramn, rximr
      ensures ramn[..] == FilterRam(filters) && rximr[..] == FilterMasks(filters)
      ensures mcr == RequestFreezeExit(old(mcr))
      ensures status == FreezeExitOutcome(frzAck, notRdy)
      ensures iflag1 == old(iflag1) && imask1 == old(imask1) && esr2 == old(esr2)
      ensures timer == old(timer) && clockGate == old(clockGate)
    {
      ProgramMailboxes(filters);
      ExitFreeze();
      status := WaitFreezeExit(frzAck, notRdy);
    }

    /**
     * One instance's share of startInterfaceGroup: clock gate on, module
     * enabled and frozen, CAN FD enabled, mailbox RAM and masks cleared, MAXMB
     * 6 with SRXDIS and IRMQ, one receive mailbox per filter, receive-mailbox
     * interrupts enabled, freeze exit requested. The waits for FRZACK and
     * NOTRDY in between are hardware handshakes without a timeout.
     */
    method Start(filters: seq<Filter>)
      requires Valid() && |filters| <= FilterCount
      modifies this, ramn, rximr
      ensures clockGate
      ensures mcr == StartedMcr(old(mcr))
      ensures ramn[..] == FilterRam(filters) && rximr[..] == FilterMasks(filters)
      ensures imask1 == RxMailboxFlags
      ensures iflag1 == old(iflag1) && esr2 == old(esr2) && timer == old(timer)
    {
      clockGate := true;
      SetMcrBits(McrMdis);
      ClearMcrBits(McrMdis);
      EnterFreeze();
      SetMcrBits(McrFden | McrFrz);
      ClearMailboxMemory();
      ClearMcrBits(McrMaxMbMask);
      SetMcrBits(McrMaxMb(6) | McrSrxDis | McrIrmq);
      LayOutFilters(filters);
      imask1 := RxMailboxFlags;
      ExitFreeze();
    }

    /** The receive half of the ISR's harvesting loop: the mailbox's payload words, each byte-reversed. */
    method ReadPayloadWords(mb: nat, len: nat) returns (words: seq<bv32>)
      requires Valid() && 2 <= mb <= MaxMailbox && len <= MaxFrameBytes
      ensures MbDataOffset + WordCount(len) <= MbSizeWords
      ensures words == ReverseWords(MailboxWords(ramn[..], mb)[MbDataOffset .. MbDataOffset + WordCount(len)])
    {
      var base := mb * MbSizeWords;
      ghost var window := MailboxWords(ramn[..], mb)[MbDataOffset .. MbDataOffset + WordCount(len)];
      WordCountCovers(len);
      words := [];
      var i := 0;
      while i < WordCount(len)
        invariant 0 <= i <= WordCount(len)
        invariant words == ReverseWords(window[..i])
      {
        assert ramn[base + MbDataOffset + i] == window[i];
        assert window[..i + 1] == window[..i] + [window[i]];
        ReverseWordsSnoc(window[..i], window[i]);
        words := words + [Rev32(ramn[base + MbDataOffset + i])];
        i := i + 1;
      }
      assert window[..i] == window;
    }

    /** The frame the ISR harvests from receive mailbox `mb`. */
    method ReadReceiveMailbox(mb: nat, lpit: Timestamp.LpitClock) returns (frame: Frame)
      requires Valid() && 2 <= mb <= MaxMailbox
      ensures frame == ReceivedFrame(ramn[..], mb, timer, lpit)
    {
      var base := mb * MbSizeWords;
      ghost var mailbox := MailboxWords(ramn[..], mb);
      assert mailbox[0] == ramn[base] && mailbox[1] == ramn[base + 1];
      var dlc := CsDlcOf(ramn[base]);
      var len := DlcToLength(dlc);
      var id := ramn[base + 1] & IdMask;
      var words := ReadPayloadWords(mb, len);
      var captured := CapturedTime(MailboxWords(ramn[..], mb));
      var timestamp := Timestamp.ResolveTimestamp(captured, timer, lpit);
      frame := Frame(id, FramePayload(WordsToBytes(words), len), dlc, timestamp);
    }

    /**
     * One pass of stopInterfaceGroup's instance loop: request module disable
     * (MDIS); while the status is a success, wait for the low-power
     * acknowledge (LPMACK) and, once it came, gate the module's clock off.
     */
    method Stop(lpmAck: seq<PollSample>, statusIn: Status) returns (status: Status)
      requires TimerExpires(lpmAck)
      modifies this
      ensures mcr == old(mcr) | McrMdis
      ensures status == if IsSuccess(statusIn) then PollOutcome(lpmAck, McrLpmAck, true) else statusIn
      ensures clockGate == if IsSuccess(statusIn) && IsSuccess(status) then false else old(clockGate)
      ensures iflag1 == old(iflag1) && imask1 == old(imask1) && esr2 == old(esr2) && timer == old(timer)
    {
      status := statusIn;
      SetMcrBits(McrMdis);
      if IsSuccess(status) {
        status := FlagPollTimeoutSet(lpmAck, McrLpmAck);
        if IsSuccess(status) {
          clockGate := false;
        }
      }
    }
  }
}
