# S32K CAN-FD media driver, modelled in Dafny

This project models the S32K media layer of libuavcan: the FlexCAN driver for the NXP S32K14x
microcontrollers (`src/s32k_libuavcan.cpp`) and the payload arithmetic of the two-board
"bounce" demo (`payload_bounceADD` in `src/main.cpp`).

The driver has four parts:

- `S32K_InterfaceManager` starts and stops a group of FlexCAN instances.
- `S32K_InterfaceGroup` transmits and receives frames through them (`write`, `read`,
  `reconfigureFilters`, `select`, the receive ISR).
- Two timed block-polling helpers wait on a register flag. Their deadline is 0xFFFFFF ticks of
  LPIT channel 2.
- Received frames are time-stamped from the chained 64-bit LPIT clock. `resolve_Timestamp`
  back-dates the frame by the distance between the mailbox time stamp and the FlexCAN TIMER.

Each FlexCAN instance is a `FlexCan` object. Its registers (MCR, IFLAG1, IMASK1, ESR2, TIMER and
the PCC clock gate) are fields. Message-buffer RAM (RAMn, 128 words) and the individual receive
masks (RXIMR, 32 words) are arrays. The driver updates all of them in place.

Register values the hardware changes on its own are inputs:

- A timed poll takes a trace of samples, one per pass of its loop. Each sample holds the
  register value read and the LPIT CVAL read on that pass.
- `select` takes one view per pass of its loop: which queues hold a frame, the ESR2 values and
  the channel-3 CVAL read.
- The ISR and the time-stamp logic take the LPIT channel 0/1 readings (`LpitClock`).

Modules, one file each:

- `CanTypes` (`can_types.dfy`): status codes, driver constants, CAN-FD DLC table, frames, filters.
- `Registers` (`registers.dfy`): FlexCAN register fields and message-buffer control words.
- `FrameCodec` (`frame_codec.dfy`): the mailbox layout of a frame, with byte swapping. Words are
  written on transmit and read back by the ISR.
- `Timestamp` (`timestamp.dfy`): `resolve_Timestamp` over the 64-bit LPIT target clock.
- `TimedPolls` (`timed_polls.dfy`): `flagPollTimeout_Set` and `flagPollTimeout_Clear`.
- `RxQueue` (`rx_queue.dfy`): the per-interface reception queue and the discard counter.
- `FlexCanDevice` (`flexcan.dfy`): one FlexCAN instance and its per-instance sequences
  (transmit, filter set-up, freeze entry/exit, start, stop, mailbox harvest).
- `InterfaceGroups` (`interface_group.dfy`): `S32K_InterfaceGroup`.
- `InterfaceManagers` (`interface_manager.dfy`): `S32K_InterfaceManager`.
- `BounceDemo` (`bounce_demo.dfy`): `payload_bounceADD`.

Modelling notes:

- The number of CAN-FD instances is 2, the S32K146 value the demo builds for. RAMn has 128 words
  and RXIMR has 32.
- The 29-bit identifier mask is `0x1FFF_FFFF`.
- The source divides the 64-bit tick difference by 80 (an 80 MHz clock). That division appears as
  `TicksPerMicrosecond`.
- `frame.getDLC()`, `dlcToLength` and `lengthToDlc` belong to the libuavcan frame type, which is
  not part of this model. They are given here by the CAN-FD DLC table: 0..8 bytes, then 12, 16,
  20, 24, 32, 48 and 64.
- The frame constructor the ISR calls is not part of this model either. It is taken to copy
  `dlcToLength(dlc)` payload bytes and zero the rest of the 64-byte buffer.

## Model

| member | source | states |
|---|---|---|
| CanTypes.DlcToLength | src/s32k_libuavcan.cpp:267-271 | the payload length of a DLC is at most 64 bytes; DLC 0..8 maps to itself; larger DLCs give lengths above 8 that are multiples of 4 |
| CanTypes.LengthToDlc | src/main.cpp:92-94 | the chosen DLC is the smallest one whose length covers the requested byte count |
| CanTypes.DlcTableRoundTrip | src/s32k_libuavcan.cpp:263-271 | converting a DLC to its length and back gives the same DLC, so the DLC the ISR reads back matches the one written on transmit |
| CanTypes.DlcToLengthStrictlyIncreasing | src/s32k_libuavcan.cpp:267-271 | a larger DLC always means a longer payload |
| Registers.MailboxOfFlags | src/s32k_libuavcan.cpp:234-252 | the mailbox the ISR selects is 0 (none) or one of the receive mailboxes 2..6 |
| Registers.MailboxOfFlagsExact | src/s32k_libuavcan.cpp:234-252 | a mailbox is selected exactly when IFLAG1 masked with 0b1111100 has one single bit set, and the selected mailbox is that bit's index |
| Registers.SimultaneousFlagsIgnored | src/s32k_libuavcan.cpp:234-252 | when two receive mailboxes are flagged at once, the switch selects no mailbox, so the ISR services neither on that interrupt |
| Registers.ReceiveMailboxesMatchFilters | src/s32k_libuavcan.cpp:660-694 | the ISR's mask 124 singles out exactly the mailboxes 2..6 that hold the five filters, and maps each one's flag back to its index |
| Registers.DlcFieldDetermines | src/s32k_libuavcan.cpp:262-265 | the DLC decoded from a control word depends only on its DLC field |
| Registers.ControlWordsLayout | src/s32k_libuavcan.cpp:180-192 | the transmit control word has CODE 0xC, EDL, BRS and IDE set, the frame's DLC and a zero time stamp; the receive-empty word has CODE 0x4, EDL, BRS, IDE and DLC 0 |
| FrameCodec.WordCountCovers | src/s32k_libuavcan.cpp:166-169 | the word count `(len >> 2) + min(1, len & 3)` covers the payload with less than one spare word, and a 64-byte payload fits in the 16 data words of a mailbox |
| FrameCodec.EncodePayload | src/s32k_libuavcan.cpp:163-175 | the payload takes one word per started group of four bytes and fits the mailbox |
| FrameCodec.ReverseWordsSnoc | src/s32k_libuavcan.cpp:283-289 | byte-swapping one more harvested word extends the swapped sequence by that word swapped |
| FrameCodec.EncodeMailbox | src/s32k_libuavcan.cpp:160-192 | the words written for a frame are the transmit control word, the ID cut to 29 bits, then the payload words, within the 18-word mailbox |
| FrameCodec.CapturedTime | src/s32k_libuavcan.cpp:291-292 | the hardware time stamp of a received frame is a 16-bit value |
| FrameCodec.DecodeMailbox | src/s32k_libuavcan.cpp:262-301 | a harvested frame is well formed, has a 29-bit ID, the DLC of the control word and the resolved time stamp, and its bytes past the payload length are zero |
| FrameCodec.Rev32Involution | src/s32k_libuavcan.cpp:171-175 | REV_BYTES_32 undoes itself |
| FrameCodec.ByteOfLoadedWord | src/s32k_libuavcan.cpp:163-175 | each byte of a word loaded little-endian from the payload is the matching payload byte |
| FrameCodec.PayloadRoundTrip | src/s32k_libuavcan.cpp:280-289 | swapping the encoded words back and splitting them into bytes gives the original payload bytes |
| FrameCodec.DecodedHeader | src/s32k_libuavcan.cpp:262-275 | a mailbox holding a frame's DLC field and masked ID decodes to that DLC, that masked ID and the given time stamp |
| FrameCodec.DecodedPayload | src/s32k_libuavcan.cpp:277-289 | a mailbox holding a frame's encoded payload words decodes to the frame's payload, zero-filled past its length |
| FrameCodec.MailboxRoundTrip | src/s32k_libuavcan.cpp:260-301 | any mailbox that agrees with a frame's encoding on the DLC field, the ID and the payload words decodes to that frame: same masked ID, DLC and payload bytes |
| FrameCodec.EncodedMailboxFields | src/s32k_libuavcan.cpp:166-192 | a mailbox whose first words are a frame's encoding has that frame's DLC field, masked ID and payload words |
| FrameCodec.EncodeThenDecode | src/s32k_libuavcan.cpp:156-301 | harvesting a mailbox written by messageBuffer_Transmit returns the sent frame with its ID cut to 29 bits and its payload zero-filled past its length |
| Timestamp.ChannelTicks | src/s32k_libuavcan.cpp:211-212 | the ticks counted by one down-counting LPIT channel fit in 32 bits |
| Timestamp.Concat32 | src/s32k_libuavcan.cpp:211-212 | two 32-bit halves put side by side fit in 64 bits, and each half can be recovered |
| Timestamp.TargetTicks | src/s32k_libuavcan.cpp:210-212 | the chained LPIT target clock is a 64-bit value |
| Timestamp.TargetTicksHalves | src/s32k_libuavcan.cpp:211-212 | the low 32 bits of the target clock are channel 0's count and the high 32 bits channel 1's |
| Timestamp.ResolveTimestamp | src/s32k_libuavcan.cpp:205-224 | the resolved time stamp in microseconds never exceeds (2^64 - 1) / 80 |
| Timestamp.WrappingSub64 | src/s32k_libuavcan.cpp:220 | uint64 subtraction: the plain difference when it is not negative, otherwise the difference plus 2^64 |
| Timestamp.ResolveSymmetric | src/s32k_libuavcan.cpp:214-216 | the source delta is the distance between TIMER and the frame's time stamp, so swapping the two gives the same result |
| Timestamp.ResolveNoDelay | src/s32k_libuavcan.cpp:214-220 | a frame stamped at the current TIMER value resolves to the current target time |
| Timestamp.ResolveBackDates | src/s32k_libuavcan.cpp:214-220 | the frame is back-dated by the source delta when the target clock is at least that large, so it is never later than now; otherwise the uint64 subtraction wraps around |
| TimedPolls.PollDecidedAt | src/s32k_libuavcan.cpp:99-113 | the first pass that sees the flag or the expired deadline decides the poll; the flag is checked first |
| TimedPolls.UndecidedStep | src/s32k_libuavcan.cpp:100-110 | a pass that misses the flag, after a pass that missed the deadline, leaves the poll undecided |
| TimedPolls.NextSampleExists | src/s32k_libuavcan.cpp:100-110 | while the deadline has not been seen, the trace still holds the next pass |
| TimedPolls.FlagPollTimeoutSet | src/s32k_libuavcan.cpp:85-114 | returns Success exactly when some pass sees the flag set before any earlier pass saw the timeout, and Failure otherwise |
| TimedPolls.FlagPollTimeoutClear | src/s32k_libuavcan.cpp:124-153 | returns Success exactly when some pass sees the flag clear before any earlier pass saw the timeout, and Failure otherwise |
| RxQueue.CountDiscard | src/s32k_libuavcan.cpp:306-310 | a frame refused by a full queue advances the uint32 discard counter by one, modulo 2^32; an accepted frame leaves it alone |
| RxQueue.AdmitAppendsOrDrops | src/s32k_libuavcan.cpp:257-305 | one reception appends the frame at the tail, keeping the queued frames, exactly when the queue holds at most 40 frames; the queue never exceeds 41 frames |
| RxQueue.AdmitAllKeepsOldest | src/s32k_libuavcan.cpp:257-310 | a burst of receptions keeps the oldest frames that fit, drops the newest and counts every drop |
| RxQueue.NothingLost | src/s32k_libuavcan.cpp:257-310 | queued frames and dropped frames add up to every frame received |
| RxQueue.CountAllWraps | src/s32k_libuavcan.cpp:306-310 | after a burst, the discard counter has advanced by the number of drops, modulo 2^32 |
| FlexCanDevice.LaidOut | src/s32k_libuavcan.cpp:428-449 | writing the first n filters into their mailboxes keeps the size of the RAM image |
| FlexCanDevice.MasksLaidOut | src/s32k_libuavcan.cpp:428-431 | writing the first n masks keeps the size of the RXIMR image |
| FlexCanDevice.WriteMailbox | src/s32k_libuavcan.cpp:166-192 | writing a frame into a mailbox keeps the size of the RAM image |
| FlexCanDevice.EncodedWords | src/s32k_libuavcan.cpp:166-192 | the definition of the mailbox encoding, word by word: the transmit control word, the masked ID, then one byte-swapped little-endian load per four payload bytes |
| FlexCanDevice.PayloadWord | src/s32k_libuavcan.cpp:171-174 | returns data word i of the frame's mailbox image; swapping that word back and reading it little-endian gives payload bytes 4i..4i+3 |
| FlexCanDevice.HeaderWords | src/s32k_libuavcan.cpp:177-192 | returns words 0 and 1 of the frame's mailbox image: the control word has CODE 0xC, EDL, BRS and IDE set and the frame's DLC; the ID word is the frame's ID cut to 29 bits, which a further 29-bit mask leaves unchanged |
| FlexCanDevice.MailboxWords | src/s32k_libuavcan.cpp:287 | a mailbox is an 18-word window of RAMn |
| FlexCanDevice.FilterLayout | src/s32k_libuavcan.cpp:666-688 | after filter set-up, mailbox mb is receive-empty (CODE 4) exactly when it holds one of the filters; that mailbox has the filter's ID and mask and its flag maps back to it; every other mailbox and mask is zero, as is every data word |
| FlexCanDevice.WriteMailboxFrame | src/s32k_libuavcan.cpp:166-192 | transmitting puts the frame's encoding at the start of the mailbox and changes no other RAM word |
| FlexCanDevice.TransmitThenReceive | src/s32k_libuavcan.cpp:156-192 | a mailbox written for transmission decodes back to the frame, with the ID cut to 29 bits and the payload zero-filled past its length |
| FlexCanDevice.FreezeRequested | src/s32k_libuavcan.cpp:411 | a freeze request sets HALT and FRZ and leaves the other MCR bits alone |
| FlexCanDevice.FreezeRoundTrip | src/s32k_libuavcan.cpp:451-452 | requesting freeze exit after freeze entry clears HALT and FRZ and restores every other MCR bit |
| FlexCanDevice.StartedMcrFields | src/s32k_libuavcan.cpp:602-697 | after start-up, MCR has MAXMB 6, FDEN, SRXDIS and IRMQ set, MDIS, HALT and FRZ clear, and no other bit changed |
| FlexCanDevice.WaitFreezeExit | src/s32k_libuavcan.cpp:454-464 | the freeze-exit wait succeeds exactly when FRZACK clears in time and then NOTRDY clears in time; the NOTRDY poll is not run after a failure |
| FlexCanDevice.ReceivedFrame | src/s32k_libuavcan.cpp:260-301 | the frame harvested from a receive mailbox is well formed |
| FlexCanDevice.FlexCan.constructor | src/s32k_libuavcan.cpp:37-38 | a FlexCAN instance with given MCR, ESR2 and RAM contents and no flag, mask or clock gate set |
| FlexCanDevice.FlexCan.ClearMailboxMemory | src/s32k_libuavcan.cpp:645-658 | every RAMn word and every RXIMR word becomes zero |
| FlexCanDevice.FlexCan.LayOutFilters | src/s32k_libuavcan.cpp:666-688 | the RAM and mask images become the filter layout of the given filters |
| FlexCanDevice.FlexCan.WritePayloadWords | src/s32k_libuavcan.cpp:166-175 | the mailbox's data words hold the frame's encoded payload; every other RAM word is unchanged |
| FlexCanDevice.FlexCan.WriteTransmitMailbox | src/s32k_libuavcan.cpp:160-192 | RAMn becomes the old RAM with the frame written into the mailbox |
| FlexCanDevice.FlexCan.TransmitMessageBuffer | src/s32k_libuavcan.cpp:156-203 | writes the frame into the mailbox, returns the outcome of polling the mailbox's IFLAG1 bit, and sets that bit; MCR, IMASK1, ESR2, TIMER, the clock gate and RXIMR are unchanged |
| FlexCanDevice.FlexCan.SetMcrBits | src/s32k_libuavcan.cpp:602 | MCR gains the given bits; no other register changes |
| FlexCanDevice.FlexCan.ClearMcrBits | src/s32k_libuavcan.cpp:605 | MCR loses the given bits; no other register changes |
| FlexCanDevice.FlexCan.EnterFreeze | src/s32k_libuavcan.cpp:411 | MCR becomes the freeze request; no other register changes |
| FlexCanDevice.FlexCan.ExitFreeze | src/s32k_libuavcan.cpp:452 | MCR becomes the freeze-exit request; no other register changes |
| FlexCanDevice.FlexCan.ProgramMailboxes | src/s32k_libuavcan.cpp:416-449 | RAMn and RXIMR are cleared, then hold exactly the given filters |
| FlexCanDevice.FlexCan.ReprogramFilters | src/s32k_libuavcan.cpp:408-465 | one instance's filter reconfiguration: freeze entry, the new filter layout, freeze exit, and the freeze-exit wait's outcome; flags, masks, ESR2, TIMER and the clock gate unchanged |
| FlexCanDevice.FlexCan.Start | src/s32k_libuavcan.cpp:599-708 | one instance's start-up: clock gate on, the started MCR, the filter layout, receive interrupts enabled for mailboxes 2..6 |
| FlexCanDevice.FlexCan.ReadPayloadWords | src/s32k_libuavcan.cpp:277-289 | returns the mailbox's payload words, byte-swapped, as many as the length needs |
| FlexCanDevice.FlexCan.ReadReceiveMailbox | src/s32k_libuavcan.cpp:260-301 | returns the frame the ISR builds from the mailbox's current RAM and TIMER |
| FlexCanDevice.FlexCan.Stop | src/s32k_libuavcan.cpp:754-770 | sets MDIS; if no earlier instance failed, returns the LPMACK poll's outcome and gates the clock off only on success; after a failure, returns that failure and leaves the clock gate alone |
| InterfaceGroups.StatusAfterFirstFailure | src/s32k_libuavcan.cpp:455-464 | the accumulated status is Success exactly when every instance succeeded, and otherwise is the first failure |
| InterfaceGroups.SelectSampleExists | src/s32k_libuavcan.cpp:490-515 | while no pass has seen the select timeout, the sequence of passes still holds the next one |
| InterfaceGroups.SelectDecidedAt | src/s32k_libuavcan.cpp:490-515 | the first pass that finds a ready instance or whose CVAL shows the timeout decides select: it succeeds exactly when that pass found an instance ready |
| InterfaceGroups.PollPass | src/s32k_libuavcan.cpp:493-511 | one pass over the instances returns true exactly when some instance has a queued frame or, unless write readiness is ignored, ESR2 shows IMB and VPS |
| InterfaceGroups.ReconfigureInstance | src/s32k_libuavcan.cpp:408-465 | one pass of the reconfiguration loop: before any failure, the instance is reprogrammed and the freeze-exit outcome returned; after a failure, the instance is left frozen with its old filters and the failure is passed on |
| InterfaceGroups.ReconfigureAll | src/s32k_libuavcan.cpp:406-467 | every instance gets the freeze request; those reached before the first failure get the new filters and the freeze-exit request; the status is the first failure or Success |
| InterfaceGroups.InterfaceGroup.constructor | src/s32k_libuavcan.cpp:52-58 | the group starts with empty queues and zero discard counters |
| InterfaceGroups.InterfaceGroup.InterfaceCount | src/s32k_libuavcan.cpp:320-323 | the number of interfaces equals the number of instances, queues and discard counters |
| InterfaceGroups.InterfaceGroup.IsrHandler | src/s32k_libuavcan.cpp:226-318 | with no single receive flag set, nothing changes; otherwise the harvested frame is queued or dropped and counted, and the mailbox's flag bit is written |
| InterfaceGroups.InterfaceGroup.ReceiveOrDiscard | src/s32k_libuavcan.cpp:255-311 | the harvested frame is appended when the queue has room, and otherwise the discard counter advances |
| InterfaceGroups.InterfaceGroup.Read | src/s32k_libuavcan.cpp:357-392 | an index past the instance count gives BadArgument; an empty queue gives SuccessNothing; otherwise the front frame is returned and removed, with Success and one frame read |
| InterfaceGroups.InterfaceGroup.Write | src/s32k_libuavcan.cpp:325-355 | without IMB and VPS in ESR2, nothing is sent and the status is BadArgument or BufferFull; with both, the frame goes to the LPTM mailbox and the status is the transmit poll's outcome, with 1 frame written on success and 0 otherwise; MCR, ESR2, IMASK1, TIMER, the clock gate and RXIMR are unchanged |
| InterfaceGroups.InterfaceGroup.ReconfigureFilters | src/s32k_libuavcan.cpp:394-471 | more than five filters gives BadArgument and changes nothing; otherwise each instance is reconfigured as ReconfigureAll states and the status is the first failure or Success |
| InterfaceGroups.InterfaceGroup.Select | src/s32k_libuavcan.cpp:473-519 | returns Success or SuccessTimeout; Success exactly when the timeout is not zero and some pass finds a ready instance (a queued frame or, unless ignored, a free transmit mailbox) before any earlier pass's CVAL showed the timeout; a frame already queued on entry gives Success whenever the timeout is not zero |
| InterfaceManagers.InterfaceManager.GetMaxFrameFilters | src/s32k_libuavcan.cpp:796-799 | returns 5, and each of the five filter mailboxes is one the ISR recognises |
| InterfaceManagers.InterfaceManager.StartInterfaceGroup | src/s32k_libuavcan.cpp:521-746 | every instance is started with the given filters, its flags, ESR2 and TIMER untouched; returns Success and the group |
| InterfaceManagers.InterfaceManager.StopInterfaceGroup | src/s32k_libuavcan.cpp:748-794 | every instance gets MDIS; instances reached before the first LPMACK timeout have their clock gated off; the status is the first failure or Success; the group pointer becomes null |
| BounceDemo.OutBytesLowWord | src/main.cpp:53-57 | bytes 60..63 as written back are the low 32 bits of the count, most significant first |
| BounceDemo.SignExtendedLowWord | src/main.cpp:31-45 | widening a half from `int` to uint64, with sign extension or without, keeps its low 32 bits |
| BounceDemo.CombinedLowWord | src/main.cpp:47-51 | the high half shifted up by 32 does not reach the low 32 bits of the incremented count |
| BounceDemo.BumpedLowWord | src/main.cpp:31-51 | the low 32 bits of the incremented count are the big-endian word in bytes 60..63 plus one, modulo 2^32 |
| BounceDemo.BounceIncrementsLowWord | src/main.cpp:29-58 | after the write-back, the big-endian word in bytes 60..63 is the old one plus one modulo 2^32, whatever bytes 56..59 held |
| BounceDemo.IncrementLastByte | src/main.cpp:50-57 | byte 63 goes up by one modulo 256, and when it was below 0xFF bytes 60..62 keep their values |
| BounceDemo.PayloadBounceAdd | src/main.cpp:29-58 | bytes 63 down to 60 hold the incremented count's low bytes, so their big-endian word goes up by one; bytes 56..59 hold what the out-of-range shifts produce; every other byte is unchanged |
| BounceDemo.WriteBack | src/main.cpp:53-57 | the loop stores the count's four low bytes into bytes 63 down to 60 and the out-of-range-shift bytes into 59 down to 56, leaving every other byte alone |
| BounceDemo.IncrementedLowWord | src/main.cpp:31-51 | the low 32 bits of the incremented count are the low half plus one, modulo 2^32, whatever sign extension did to the high bits |
| BounceDemo.Increment | src/main.cpp:33-51 | returns the count of the two widened halves plus one, whose low 32 bits are the low half plus one, modulo 2^32 |
| BounceDemo.StoredByte | src/main.cpp:54-57 | the byte stored into rx_payload[63 - i] for i = 0..3 is byte i of the count, bits 8i..8i+7; for i = 3 the sign-extended mask makes no difference |

## Left out

- Clock and pin bring-up in `startInterfaceGroup` is not modelled: SOSC, SPLL, RUN-mode clocks, port multiplexing and transceiver standby pins. Neither is the LPIT set-up, the NVIC enable, or the CTRL1, CTRL2, CBT, FDCBT and FDCTRL bit-timing writes. None of them affects what the driver stores in the modelled registers.
- InterfaceManagers.InterfaceManager.StartInterfaceGroup: the spin-waits without a timeout (SOSCVLD, SPLLVLD, LPIT running, FRZACK set, FRZACK and NOTRDY clear) are taken to end. The method requires at most five filters, because with more the source writes filter masks and mailboxes past the mailbox area. Its BadArgument status is therefore not modelled.
- InterfaceManagers.InterfaceManager.StopInterfaceGroup: the LPIT software reset, its spin-wait, and gating off the LPIT clock are not modelled.
- InterfaceGroups.InterfaceGroup.Write: requires 1 <= interface index <= instance count, because the source reads ESR2 of instance `index - 1` even after flagging a bad index. It also requires that a ready ESR2 names an LPTM mailbox of at most 6, the mailboxes the driver lays out.
- InterfaceGroups.InterfaceGroup.Read: requires an interface index of at least 1, because the source indexes queue `index - 1` for index 0.
- IFLAG1 is write-1-to-clear in hardware. The model stores the value the driver writes (`IFLAG1 | flag`) as plain memory.
- Register changes the hardware makes by itself are inputs: poll traces, CVAL readings, ESR2, TIMER and RAM contents. Each poll requires that its trace reaches the deadline. The case where the LPIT never advances is not modelled.
- The FlexCAN TIMER and LPIT CVAL readings are modelled as 32-bit values (`U32`); their hardware widths and volatility are not.
- The ISR's DISABLE_INTERRUPTS / ENABLE_INTERRUPTS and concurrency between the ISR and `read` are not modelled. Each operation is atomic.
- The reception queue is a sequence. The `std::deque` with its PoolAllocator, and DISCARD_COUNT_ARRAY (the counters' initial values, taken as zero), are not part of this model.
- The libuavcan frame type (`getDLC`, `getDataLength`, `dlcToLength`, `lengthToDlc`, the frame constructor) and `time::Monotonic` are not part of this model. The DLC table and a zero-filling constructor are stated in their place, and time stamps are plain microsecond counts.
- The CAN*_ORed IRQ stubs, `greenLED_init` and the demo's `main` super-loop are not modelled.
- BounceDemo.PayloadBounceAdd: the bytes written to positions 56..59 come from `0xFF << (8*i)` for i = 4..7, a shift past the width of `int`. The language leaves that value undefined, so these four bytes are an input.
- InterfaceGroups.InterfaceGroup.Select: what each pass reads is an input, one `SelectPass` per pass (queue emptiness, ESR2 and the CVAL read). The model requires only that a frame queued on entry stays visible, and that some pass sees the timeout when it is not zero. How the ISR and the hardware come to change these between passes is not modelled.
- InterfaceGroups.SelectCycles: the timeout in microseconds is compared with LPIT channel 3 ticks, as the source does, with no conversion between the two units.
- Interface instance 2 (S32K148) is not modelled. The instance count is fixed at 2.
