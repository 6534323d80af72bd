/**
 * The mailbox frame codec: how a frame is laid out in a FlexCAN message buffer
 * (control word at +0, id at +1, payload words from +2, each payload word
 * byte-reversed with respect to the little-endian payload bytes) and how the
 * receive path reads it back.
 */
module FrameCodec {
  import opened CanTypes
  import opened Registers

  /** REV_BYTES_32: reverse the four bytes of a word. */
  function Rev32(w: bv32): bv32 {
    (w << 24) | ((w << 8) & 0x00FF_0000) | ((w >> 8) & 0x0000_FF00) | (w >> 24)
  }

  /** Payload words moved for `len` bytes: `(len >> 2) + min(1, len & 3)`. */
  function WordCount(len: nat): nat {
    len / 4 + (if len % 4 == 0 then 0 else 1)
  }

  /** The word count is the number of words that holds `len` bytes, rounded up. */
  lemma WordCountCovers(len: nat)
    ensures len <= 4 * WordCount(len) < len + 4
    ensures len <= MaxFrameBytes ==> MbDataOffset + WordCount(len) <= MbSizeWords
  {
  }

  /** `native_FrameData[i]`: payload bytes 4i..4i+3 read as a little-endian word. */
  function LoadWordLE(data: seq<bv8>, i: nat): bv32
    requires 4 * i + 4 <= |data|
  {
    (data[4 * i] as bv32)
    | ((data[4 * i + 1] as bv32) << 8)
    | ((data[4 * i + 2] as bv32) << 16)
    | ((data[4 * i + 3] as bv32) << 24)
  }

  /** Byte `k` of a word stored little-endian in memory. */
  function ByteOfWordLE(w: bv32, k: nat): bv8
    requires k < 4
  {
    if k == 0 then (w & 0xFF) as bv8
    else if k == 1 then ((w >> 8) & 0xFF) as bv8
    else if k == 2 then ((w >> 16) & 0xFF) as bv8
    else (w >> 24) as bv8
  }

  /** The payload words the transmit loop writes into a mailbox. */
  function EncodePayload(data: seq<bv8>, len: nat): (words: seq<bv32>)
    requires |data| == MaxFrameBytes && len <= MaxFrameBytes
    ensures |words| == WordCount(len) && |words| + MbDataOffset <= MbSizeWords
  {
    WordCountCovers(len);
    seq(WordCount(len), i requires 0 <= i < WordCount(len) => Rev32(LoadWordLE(data, i)))
  }

  /** `data_ISR_word`: the mailbox payload words, each byte-reversed. */
  function ReverseWords(ws: seq<bv32>): seq<bv32> {
    seq(|ws|, i requires 0 <= i < |ws| => Rev32(ws[i]))
  }

  lemma ReverseWordsSnoc(ws: seq<bv32>, w: bv32)
    ensures ReverseWords(ws + [w]) == ReverseWords(ws) + [Rev32(w)]
  {
  }

  /** The bytes of a word array as it lies in little-endian memory. */
  function WordsToBytes(ws: seq<bv32>): seq<bv8> {
    seq(4 * |ws|, n requires 0 <= n < 4 * |ws| => ByteOfWordLE(ws[n / 4], n % 4))
  }

  /** The frame constructor's buffer: the first `len` bytes copied, the rest zero. */
  function FramePayload(bytes: seq<bv8>, len: nat): seq<bv8>
    requires len <= |bytes| && len <= MaxFrameBytes
  {
    bytes[..len] + seq(MaxFrameBytes - len, _ => 0)
  }

  /** Words of a transmit mailbox, from its base: control word, id, payload. */
  function EncodeMailbox(frame: Frame): (words: seq<bv32>)
    requires frame.WellFormed()
    ensures |words| == MbDataOffset + WordCount(frame.DataLength()) <= MbSizeWords
    ensures words[0] == CsTransmit(frame.dlc) && words[1] & IdMask == words[1]
  {
    [CsTransmit(frame.dlc), frame.id & IdMask] + EncodePayload(frame.data, frame.DataLength())
  }

  /** The 16-bit capture time in the control word of a received mailbox. */
  function CapturedTime(mailbox: seq<bv32>): (t: nat)
    requires |mailbox| == MbSizeWords
    ensures t < 0x1_0000
  {
    ((mailbox[0] & 0xFFFF) as bv16) as nat
  }

  /** The frame the ISR builds from a received mailbox, given its resolved timestamp. */
  function DecodeMailbox(mailbox: seq<bv32>, timestamp: nat): (f: Frame)
    requires |mailbox| == MbSizeWords
    ensures f.WellFormed() && f.id & IdMask == f.id && f.timestamp == timestamp
    ensures f.dlc == CsDlcOf(mailbox[0])
    ensures forall n :: f.DataLength() <= n < MaxFrameBytes ==> f.data[n] == 0
  {
    var dlc := CsDlcOf(mailbox[0]);
    var len := DlcToLength(dlc);
    WordCountCovers(len);
    var words := ReverseWords(mailbox[MbDataOffset .. MbDataOffset + WordCount(len)]);
    Frame(mailbox[1] & IdMask, FramePayload(WordsToBytes(words), len), dlc, timestamp)
  }

  lemma IdMaskIdempotent(id: bv32)
    ensures (id & IdMask) & IdMask == id & IdMask
  {
  }

  lemma Rev32Involution(w: bv32)
    ensures Rev32(Rev32(w)) == w
  {
  }

  lemma ByteOfLoadedWord(data: seq<bv8>, i: nat, k: nat)
    requires 4 * i + 4 <= |data| && k < 4
    ensures ByteOfWordLE(LoadWordLE(data, i), k) == data[4 * i + k]
  {
  }

  /**
   * Payload round trip: the words the transmit loop writes, read back through
   * the receive loop's byte reversal, give back payload bytes 0..len-1.
   */
  lemma {:induction false} PayloadRoundTrip(data: seq<bv8>, len: nat)
    requires |data| == MaxFrameBytes && len <= MaxFrameBytes
    ensures len <= |WordsToBytes(ReverseWords(EncodePayload(data, len)))|
    ensures WordsToBytes(ReverseWords(EncodePayload(data, len)))[..len] == data[..len]
  {
    var words := EncodePayload(data, len);
    var bytes := WordsToBytes(ReverseWords(words));
    WordCountCovers(len);
    forall n | 0 <= n < len
      ensures bytes[n] == data[n]
    {
      var i, k := n / 4, n % 4;
      assert n == 4 * i + k;
      Rev32Involution(LoadWordLE(data, i));
      ByteOfLoadedWord(data, i, k);
    }
  }

  /** The header half of the round trip: DLC field, 29-bit id and timestamp. */
  lemma DecodedHeader(frame: Frame, mailbox: seq<bv32>, timestamp: nat)
    requires frame.WellFormed() && |mailbox| == MbSizeWords
    requires mailbox[0] & CsDlcMask == CsTransmit(frame.dlc) & CsDlcMask
    requires mailbox[1] & IdMask == frame.id & IdMask
    ensures DecodeMailbox(mailbox, timestamp).id == frame.id & IdMask
    ensures DecodeMailbox(mailbox, timestamp).dlc == frame.dlc
    ensures DecodeMailbox(mailbox, timestamp).timestamp == timestamp
  {
    ControlWordsLayout(frame.dlc);
    DlcFieldDetermines(mailbox[0], CsTransmit(frame.dlc));
  }

  /** The payload half of the round trip, once the DLC field is known to be the frame's. */
  lemma {:induction false} DecodedPayload(frame: Frame, mailbox: seq<bv32>, timestamp: nat)
    requires frame.WellFormed() && |mailbox| == MbSizeWords
    requires CsDlcOf(mailbox[0]) == frame.dlc
    requires mailbox[MbDataOffset .. MbDataOffset + WordCount(frame.DataLength())]
             == EncodePayload(frame.data, frame.DataLength())
    ensures DecodeMailbox(mailbox, timestamp).data == FramePayload(frame.data, frame.DataLength())
  {
    var len := frame.DataLength();
    var bytes := WordsToBytes(ReverseWords(EncodePayload(frame.data, len)));
    PayloadRoundTrip(frame.data, len);
    assert DecodeMailbox(mailbox, timestamp).data == FramePayload(bytes, len);
    assert bytes[..len] == frame.data[..len];
  }

  /**
   * Mailbox round trip: a receive mailbox carrying the DLC field, the id and the
   * payload words that the transmit path wrote decodes to the same id (masked to
   * 29 bits), the same length code and the same first DataLength() payload bytes.
   */
  lemma {:induction false} MailboxRoundTrip(frame: Frame, mailbox: seq<bv32>, timestamp: nat)
    requires frame.WellFormed() && |mailbox| == MbSizeWords
    requires mailbox[0] & CsDlcMask == CsTransmit(frame.dlc) & CsDlcMask
    requires mailbox[1] & IdMask == frame.id & IdMask
    requires mailbox[MbDataOffset .. MbDataOffset + WordCount(frame.DataLength())]
             == EncodePayload(frame.data, frame.DataLength())
    ensures DecodeMailbox(mailbox, timestamp).id == frame.id & IdMask
    ensures DecodeMailbox(mailbox, timestamp).dlc == frame.dlc
    ensures DecodeMailbox(mailbox, timestamp).data[..frame.DataLength()] == frame.data[..frame.DataLength()]
    ensures DecodeMailbox(mailbox, timestamp).data == FramePayload(frame.data, frame.DataLength())
    ensures DecodeMailbox(mailbox, timestamp).timestamp == timestamp
  {
    DecodedHeader(frame, mailbox, timestamp);
    DecodedPayload(frame, mailbox, timestamp);
  }

  /** An encoded mailbox, whatever follows it, meets the round trip's hypotheses. */
  lemma {:induction false} EncodedMailboxFields(frame: Frame, rest: seq<bv32>)
    requires frame.WellFormed()
    requires |EncodeMailbox(frame)| + |rest| == MbSizeWords
    ensures (EncodeMailbox(frame) + rest)[0] & CsDlcMask == CsTransmit(frame.dlc) & CsDlcMask
    ensures (EncodeMailbox(frame) + rest)[1] & IdMask == frame.id & IdMask
    ensures (EncodeMailbox(frame) + rest)[MbDataOffset .. MbDataOffset + WordCount(frame.DataLength())]
            == EncodePayload(frame.data, frame.DataLength())
  {
    var enc := EncodeMailbox(frame);
    var m := enc + rest;
    assert m[MbDataOffset .. MbDataOffset + WordCount(frame.DataLength())] == enc[MbDataOffset..];
    assert m[0] == enc[0] && m[1] == enc[1];
    IdMaskIdempotent(frame.id);
  }

  /** Decoding an encoded mailbox gives back the frame as the constructor rebuilds it. */
  lemma {:induction false} EncodeThenDecode(frame: Frame, rest: seq<bv32>, timestamp: nat)
    requires frame.WellFormed()
    requires |EncodeMailbox(frame)| + |rest| == MbSizeWords
    ensures DecodeMailbox(EncodeMailbox(frame) + rest, timestamp)
            == Frame(frame.id & IdMask, FramePayload(frame.data, frame.DataLength()), frame.dlc, timestamp)
  {
    EncodedMailboxFields(frame, rest);
    MailboxRoundTrip(frame, EncodeMailbox(frame) + rest, timestamp);
    var d := DecodeMailbox(EncodeMailbox(frame) + rest, timestamp);
    assert d.id == frame.id & IdMask;
    assert d.data == FramePayload(frame.data, frame.DataLength());
    assert d.dlc == frame.dlc;
  }
}
