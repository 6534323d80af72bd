/**
 * payload_bounceADD of the two-board demo: the last eight bytes of a 64-byte
 * payload are read as two big-endian 32-bit halves, put together into a
 * 64-bit count, the count is incremented and written back big-endian into
 * bytes 63 down to 56.
 *
 * The C++ builds each half in `int`, so a half whose top byte is 0x80 or more
 * is sign-extended when it is widened to 64 bits, and the write-back masks
 * with `0xFF << (8*i)` in `int` as well: for i = 3 the mask is sign-extended,
 * for i = 4..7 the shift is out of range and the byte written is not defined
 * by the language. Those four bytes are an input here.
 */
module BounceDemo {

  /** Four bytes read most significant first. */
  function BigEndian32(b0: bv8, b1: bv8, b2: bv8, b3: bv8): bv32 {
    ((b0 as bv32) << 24) | ((b1 as bv32) << 16) | ((b2 as bv32) << 8) | (b3 as bv32)
  }

  /** An `int` holding the 32-bit pattern `w`, converted to uint64: bit 31 is copied into bits 32..63. */
  function SignExtendedWord(w: bv32): bv64 {
    if w & 0x8000_0000 != 0 then (w as bv64) | 0xFFFF_FFFF_0000_0000 else w as bv64
  }

  /** `((payloadLSB << 32) | payloadMSB) + 1` for the halves `hi` (bytes 56..59) and `lo` (bytes 60..63). */
  function IncrementedCount(hi: bv32, lo: bv32): bv64 {
    ((SignExtendedWord(hi) << 32) | SignExtendedWord(lo)) + 1
  }

  /** The low 32 bits of a 64-bit value. */
  function LowWord(n: bv64): bv32 {
    (n & 0xFFFF_FFFF) as bv32
  }

  /** fullNumber after the increment, for payload `p`. */
  function BumpedCount(p: seq<bv8>): bv64
    requires |p| >= 64
  {
    IncrementedCount(BigEndian32(p[56], p[57], p[58], p[59]), BigEndian32(p[60], p[61], p[62], p[63]))
  }

  /**
   * The byte stored into rx_payload[63 - i] for i = 0..3:
   * `(fullNumber & (uint64)(0xFF << (8*i))) >> (8*i)`, truncated to uint8.
   * For i = 3 the `int` mask 0xFF000000 is negative and widens to
   * 0xFFFFFFFFFF000000; the truncation keeps bits 24..31 all the same.
   */
  function OutByte(n: bv64, i: nat): bv8
    requires i < 4
  {
    if i == 0 then (n & 0xFF) as bv8
    else if i == 1 then ((n & 0xFF00) >> 8) as bv8
    else if i == 2 then ((n & 0xFF_0000) >> 16) as bv8
    else (((n & 0xFFFF_FFFF_FF00_0000) >> 24) & 0xFF) as bv8
  }

  /** Bytes 60..63 as written back hold the low 32 bits of the count, most significant first. */
  lemma OutBytesLowWord(n: bv64)
    ensures BigEndian32(OutByte(n, 3), OutByte(n, 2), OutByte(n, 1), OutByte(n, 0)) == LowWord(n)
  {
  }

  /** Widening with or without sign extension keeps the low 32 bits. */
  lemma SignExtendedLowWord(w: bv32)
    ensures LowWord(SignExtendedWord(w)) == w
  {
    if w & 0x8000_0000 != 0 {
      WidenedLowWord(w, 0xFFFF_FFFF_0000_0000);
    } else {
      WidenedLowWord(w, 0);
    }
  }

  /** Helper for SignExtendedLowWord: OR-ing bits only above bit 31 keeps the low word. */
  lemma WidenedLowWord(w: bv32, high: bv64)
    requires high & 0xFFFF_FFFF == 0
    ensures LowWord((w as bv64) | high) == w
  {
  }

  /** The high half shifted up by 32 does not reach the low 32 bits of the incremented count. */
  lemma CombinedLowWord(lsb: bv64, msb: bv64)
    ensures LowWord(((lsb << 32) | msb) + 1) == LowWord(msb) + 1
  {
  }

  /** The low 32 bits of the incremented count are the low half plus one, modulo 2^32. */
  lemma IncrementedLowWord(hi: bv32, lo: bv32)
    ensures LowWord(IncrementedCount(hi, lo)) == lo + 1
  {
    SignExtendedLowWord(lo);
    CombinedLowWord(SignExtendedWord(hi), SignExtendedWord(lo));
  }

  /** The low 32 bits of the count are the big-endian word of bytes 60..63, plus one, modulo 2^32. */
  lemma BumpedLowWord(p: seq<bv8>)
    requires |p| >= 64
    ensures LowWord(BumpedCount(p)) == BigEndian32(p[60], p[61], p[62], p[63]) + 1
  {
    IncrementedLowWord(BigEndian32(p[56], p[57], p[58], p[59]), BigEndian32(p[60], p[61], p[62], p[63]));
  }

  /**
   * The big-endian word in bytes 60..63 of the result is the old one plus one,
   * modulo 2^32, whatever bytes 56..59 held.
   */
  lemma {:induction false} BounceIncrementsLowWord(p: seq<bv8>, q: seq<bv8>)
    requires |p| >= 64 && |q| >= 64
    requires forall i :: 0 <= i < 4 ==> q[63 - i] == OutByte(BumpedCount(p), i)
    ensures BigEndian32(q[60], q[61], q[62], q[63]) == BigEndian32(p[60], p[61], p[62], p[63]) + 1
  {
    var n := BumpedCount(p);
    assert q[60] == OutByte(n, 3) && q[61] == OutByte(n, 2) && q[62] == OutByte(n, 1) && q[63] == OutByte(n, 0);
    OutBytesLowWord(n);
    BumpedLowWord(p);
  }

  /** Adding one to a big-endian word bumps its last byte and, without a carry, nothing else. */
  lemma IncrementLastByte(a0: bv8, a1: bv8, a2: bv8, a3: bv8, b0: bv8, b1: bv8, b2: bv8, b3: bv8)
    requires BigEndian32(b0, b1, b2, b3) == BigEndian32(a0, a1, a2, a3) + 1
    ensures b3 == a3 + 1
    ensures a3 < 0xFF ==> b0 == a0 && b1 == a1 && b2 == a2
  {
  }

  /**
   * payload_bounceADD on a payload of at least 64 bytes: all eight bytes are
   * read first, then the write loop stores once into each of bytes 63 down to
   * 56; bytes 60..63 take the incremented low word, bytes 56..59 the values
   * the out-of-range shifts produce (`unspecified[59 - k]` for byte k).
   */
  method PayloadBounceAdd(rxPayload: array<bv8>, unspecified: seq<bv8>)
    requires rxPayload.Length >= 64 && |unspecified| == 4
    modifies rxPayload
    ensures forall k :: 0 <= k < rxPayload.Length && !(56 <= k < 64) ==> rxPayload[k] == old(rxPayload[k])
    ensures forall i :: 0 <= i < 4 ==> rxPayload[63 - i] == OutByte(BumpedCount(old(rxPayload[..])), i)
    ensures forall k :: 56 <= k < 60 ==> rxPayload[k] == unspecified[59 - k]
    ensures BigEndian32(rxPayload[60], rxPayload[61], rxPayload[62], rxPayload[63])
            == BigEndian32(old(rxPayload[60]), old(rxPayload[61]), old(rxPayload[62]), old(rxPayload[63])) + 1
  {
    ghost var p := rxPayload[..];
    var payloadLsb := BigEndian32(rxPayload[56], rxPayload[57], rxPayload[58], rxPayload[59]);
    var payloadMsb := BigEndian32(rxPayload[60], rxPayload[61], rxPayload[62], rxPayload[63]);
    var fullNumber := Increment(payloadLsb, payloadMsb);
    assert fullNumber == BumpedCount(p);
    WriteBack(rxPayload, fullNumber, unspecified);
    BounceIncrementsLowWord(p, rxPayload[..]);
  }

  /** The write-back loop: stores bytes 63 down to 56, the count's low four bytes first. */
  method WriteBack(rxPayload: array<bv8>, fullNumber: bv64, unspecified: seq<bv8>)
    requires rxPayload.Length >= 64 && |unspecified| == 4
    modifies rxPayload
    ensures forall k :: 0 <= k < rxPayload.Length && !(56 <= k < 64) ==> rxPayload[k] == old(rxPayload[k])
    ensures forall i :: 0 <= i < 4 ==> rxPayload[63 - i] == OutByte(fullNumber, i)
    ensures forall k :: 56 <= k < 60 ==> rxPayload[k] == unspecified[59 - k]
  {
    for i := 0 to 8
      invariant forall k :: 0 <= k < rxPayload.Length && !(63 - i < k <= 63) ==> rxPayload[k] == old(rxPayload[k])
      invariant forall j :: 0 <= j < i && j < 4 ==> rxPayload[63 - j] == OutByte(fullNumber, j)
      invariant forall k :: 63 - i < k < 60 ==> rxPayload[k] == unspecified[59 - k]
    {
      if i < 4 {
        var b := StoredByte(fullNumber, i);
        rxPayload[63 - i] := b;
      } else {
        rxPayload[63 - i] := unspecified[i - 4];
      }
    }
  }

  /**
   * The two halves widened from `int` to uint64, combined and incremented.
   * The low 32 bits of the result are the low half plus one, modulo 2^32,
   * whatever sign extension did to the high bits.
   */
  method Increment(hi: bv32, lo: bv32) returns (fullNumber: bv64)
    ensures fullNumber == IncrementedCount(hi, lo)
    ensures LowWord(fullNumber) == lo + 1
  {
    var payloadLsb: bv64 := hi as bv64;
    if hi & 0x8000_0000 != 0 {
      payloadLsb := payloadLsb | 0xFFFF_FFFF_0000_0000;
    }
    var payloadMsb: bv64 := lo as bv64;
    if lo & 0x8000_0000 != 0 {
      payloadMsb := payloadMsb | 0xFFFF_FFFF_0000_0000;
    }
    fullNumber := ((payloadLsb << 32) | payloadMsb) + 1;
    IncrementedLowWord(hi, lo);
  }

  /**
   * One pass of the write-back loop for i = 0..3: byte i of the count. For
   * i = 3 the sign-extended mask 0xFFFFFFFFFF000000 changes nothing, since
   * only bits 24..31 survive the truncation.
   */
  method StoredByte(fullNumber: bv64, i: nat) returns (b: bv8)
    requires i < 4
    ensures b == OutByte(fullNumber, i)
    ensures i == 0 ==> b == (fullNumber & 0xFF) as bv8
    ensures i == 1 ==> b == ((fullNumber >> 8) & 0xFF) as bv8
    ensures i == 2 ==> b == ((fullNumber >> 16) & 0xFF) as bv8
    ensures i == 3 ==> b == ((fullNumber >> 24) & 0xFF) as bv8
  {
    if i == 0 {
      b := (fullNumber & 0xFF) as bv8;
    } else if i == 1 {
      b := ((fullNumber & 0xFF00) >> 8) as bv8;
    } else if i == 2 {
      b := ((fullNumber & 0xFF_0000) >> 16) as bv8;
    } else {
      b := (((fullNumber & 0xFFFF_FFFF_FF00_0000) >> 24) & 0xFF) as bv8;
    }
  }
}
