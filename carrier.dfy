/** The carrier format: a 32-bit payload length, then the payload, each
    stored least significant bit first in bit 0 of successive carrier bytes.
    The functions here say what the encoder writes and what the decoder
    reads; the lemmas relate the two. */
module Carrier {
  import opened Bits
  import opened Results
  import opened BitStream

  /** Number of carrier bytes holding the length field. */
  const HeaderLen: nat := 32

  /** Payload lengths must stay strictly below this bound. */
  const LengthLimit: nat := 0xFFFF_FFFF

  /** The encoder's two checks: the length fits the length field, and the
      carrier has room for the length field and eight bytes per payload byte. */
  function Fits(carrierLen: nat, payloadLen: nat): (ok: bool)
    ensures ok ==> HeaderLen <= carrierLen && payloadLen < 0x1_0000_0000
  {
    payloadLen < LengthLimit && payloadLen * 8 + HeaderLen <= carrierLen
  }

  /** `p[at + i] |= bits[i]` for each `i`; every other byte is kept. No bit
      that is set in `p` is cleared. */
  function OrInto(p: seq<Byte>, at: nat, bits: seq<Byte>): (q: seq<Byte>)
    requires at + |bits| <= |p|
    ensures |q| == |p|
    ensures forall i :: 0 <= i < |p| ==> q[i] & p[i] == p[i]
  {
    seq(|p|, i requires 0 <= i < |p| =>
      if at <= i < at + |bits| then p[i] | bits[i - at] else p[i])
  }

  /** The carrier after encoding `data`: first the length bits are OR-ed into
      bytes 0..32, then the payload bits into the bytes from 32 on. */
  function Embedded(p: seq<Byte>, data: seq<Byte>): (q: seq<Byte>)
    requires Fits(|p|, |data|)
    ensures |q| == |p|
  {
    OrInto(OrInto(p, 0, UintBits(|data|, HeaderLen)), HeaderLen, BitsOf(data))
  }

  /** The length read from bytes 0..32: the sum of `(p[i] & 1) << i`. */
  function PayloadSize(p: seq<Byte>): (n: nat)
    requires |p| >= HeaderLen
    ensures n < Pow2(32)
  {
    FromBits(p, HeaderLen)
  }

  /** Payload byte `i`, gathered from bit 0 of carrier bytes `32 + 8i .. 32 + 8i + 8`. */
  function PayloadByte(p: seq<Byte>, i: nat): (b: Byte)
    requires HeaderLen + 8 * i + 8 <= |p|
    ensures forall k :: 0 <= k < 8 ==> ByteBit(b, k) == Lsb(p[HeaderLen + 8 * i + k])
  {
    var from := HeaderLen + 8 * i;
    assert forall k :: 0 <= k < 8 ==> ByteBit(PackBits(p, from, 8), k) == Lsb(p[from + k]) by {
      forall k | 0 <= k < 8 {
        PackBitsBit(p, from, 8, k);
      }
    }
    PackBits(p, from, 8)
  }

  /** What decoding the carrier `p` yields. */
  function Extracted(p: seq<Byte>): (r: Result<seq<Byte>, DecodeError>)
    ensures r.Ok? ==> |p| >= HeaderLen && |r.value| == PayloadSize(p)
  {
    if |p| < HeaderLen then Err(TruncatedHeader)
    else
      var size := PayloadSize(p);
      if |p| < HeaderLen + size * 8 then Err(TruncatedPayload)
      else Ok(seq(size, i requires 0 <= i < size => PayloadByte(p, i)))
  }

  /** Bit 0 of the first `n` carrier bytes is clear. */
  predicate LsbsClear(p: seq<Byte>, n: nat)
    requires n <= |p|
  {
    forall i :: 0 <= i < n ==> Lsb(p[i]) == 0
  }

  // ---------------------------------------------------------------------
  // What encoding changes

  /** Encoding only ever sets bit 0: bits 1 to 7 of every byte are kept, and
      a bit 0 that was set stays set. */
  lemma EmbedOnlySetsLsb(p: seq<Byte>, data: seq<Byte>, i: nat)
    requires Fits(|p|, |data|) && i < |p|
    ensures Embedded(p, data)[i] & 0xFE == p[i] & 0xFE
    ensures Lsb(p[i]) == 1 ==> Lsb(Embedded(p, data)[i]) == 1
  {
  }

  /** Bytes past the header and the payload bits are not changed. */
  lemma EmbedKeepsTail(p: seq<Byte>, data: seq<Byte>, i: nat)
    requires Fits(|p|, |data|) && HeaderLen + 8 * |data| <= i < |p|
    ensures Embedded(p, data)[i] == p[i]
  {
  }

  /** Bit 0 of header byte `k` becomes its old value OR bit `k` of the length. */
  lemma EmbedHeaderLsb(p: seq<Byte>, data: seq<Byte>, k: nat)
    requires Fits(|p|, |data|) && k < HeaderLen
    ensures Lsb(Embedded(p, data)[k]) == Lsb(p[k]) | UintBit(|data|, k)
  {
  }

  /** Bit 0 of carrier byte `32 + j` becomes its old value OR payload bit `j`. */
  lemma EmbedPayloadLsb(p: seq<Byte>, data: seq<Byte>, j: nat)
    requires Fits(|p|, |data|) && j < 8 * |data|
    ensures Lsb(Embedded(p, data)[HeaderLen + j]) == Lsb(p[HeaderLen + j]) | BitOf(data, j)
  {
  }

  /** An empty payload writes an all-zero length field and nothing else, so
      the carrier is left exactly as it was. */
  lemma EmbedEmpty(p: seq<Byte>)
    requires |p| >= HeaderLen
    ensures Embedded(p, []) == p
  {
    forall k | 0 <= k < HeaderLen
      ensures UintBits(0, HeaderLen)[k] == 0
    {
      ShrZero(k);
    }
  }

  // ---------------------------------------------------------------------
  // What decoding reads back

  /** Bit `k` of the decoded length is bit 0 of carrier byte `k`. */
  lemma PayloadSizeBit(p: seq<Byte>, k: nat)
    requires |p| >= HeaderLen && k < HeaderLen
    ensures Shr(PayloadSize(p), k) % 2 == BitValue(p[k])
  {
    FromBitsBit(p, HeaderLen, k);
  }

  /** Bit `k` of decoded byte `i` is bit 0 of carrier byte `32 + 8i + k`. */
  lemma PayloadByteBit(p: seq<Byte>, i: nat, k: nat)
    requires HeaderLen + 8 * i + 8 <= |p| && k < 8
    ensures ByteBit(PayloadByte(p, i), k) == Lsb(p[HeaderLen + 8 * i + k])
  {
    PackBitsBit(p, HeaderLen + 8 * i, 8, k);
  }

  /** A payload byte is determined by the eight carrier bits it is read from. */
  lemma PayloadByteFromBits(p: seq<Byte>, i: nat, b: Byte)
    requires HeaderLen + 8 * i + 8 <= |p|
    requires forall k :: 0 <= k < 8 ==> Lsb(p[HeaderLen + 8 * i + k]) == ByteBit(b, k)
    ensures PayloadByte(p, i) == b
  {
    PackByteBits(b, p, HeaderLen + 8 * i);
  }

  /** Decoding fails on a carrier shorter than the length field, or shorter
      than the length field plus eight bytes per byte it announces, and
      otherwise yields that many bytes, each made of bit 0 of eight
      successive carrier bytes, least significant first. */
  lemma ExtractedOutcome(p: seq<Byte>)
    ensures Extracted(p) == Err(TruncatedHeader) <==> |p| < HeaderLen
    ensures Extracted(p) == Err(TruncatedPayload) <==>
      |p| >= HeaderLen && |p| < HeaderLen + 8 * PayloadSize(p)
    ensures Extracted(p).Ok? ==>
      && |Extracted(p).value| == PayloadSize(p) < Pow2(32)
      && HeaderLen + 8 * PayloadSize(p) <= |p|
      && forall i, k :: 0 <= i < PayloadSize(p) && 0 <= k < 8 ==>
           ByteBit(Extracted(p).value[i], k) == Lsb(p[HeaderLen + 8 * i + k])
  {
    if Extracted(p).Ok? {
      forall i, k | 0 <= i < PayloadSize(p) && 0 <= k < 8
        ensures ByteBit(Extracted(p).value[i], k) == Lsb(p[HeaderLen + 8 * i + k])
      {
        PayloadByteBit(p, i, k);
      }
    }
  }

  // ---------------------------------------------------------------------
  // Round trip

  /** Length fidelity: on a carrier whose header bits start clear, the
      decoded length is the payload length. */
  lemma {:induction false} HeaderRoundTrip(p: seq<Byte>, data: seq<Byte>)
    requires Fits(|p|, |data|) && LsbsClear(p, HeaderLen)
    ensures PayloadSize(Embedded(p, data)) == |data|
  {
    var q := Embedded(p, data);
    var bits := UintBits(|data|, HeaderLen);
    forall k | 0 <= k < HeaderLen
      ensures Lsb(q[k]) == Lsb(bits[k])
    {
      OrIntoClearLsb(p[k], bits[k]);
    }
    FromBitsSameLsbs(q, bits, HeaderLen);
    Pow2Of32();
    FromUintBits(|data|, HeaderLen);
  }

  /** On a carrier whose bits 0 start clear, bit 0 of carrier byte
      `32 + 8i + k` ends up as bit `k` of payload byte `i`. */
  lemma PayloadBitsRoundTrip(p: seq<Byte>, data: seq<Byte>, i: nat)
    requires Fits(|p|, |data|) && LsbsClear(p, HeaderLen + 8 * |data|) && i < |data|
    ensures forall k :: 0 <= k < 8 ==>
      Lsb(Embedded(p, data)[HeaderLen + 8 * i + k]) == ByteBit(data[i], k)
  {
    forall k | 0 <= k < 8
      ensures Lsb(Embedded(p, data)[HeaderLen + 8 * i + k]) == ByteBit(data[i], k)
    {
      var j := 8 * i + k;
      EmbedPayloadLsb(p, data, j);
      BitsOfByte(data, i, k);
      OrIntoClearLsb(p[HeaderLen + j], BitOf(data, j));
    }
  }

  /** On a carrier whose bits 0 start clear, payload byte `i` reads back. */
  lemma PayloadByteRoundTrip(p: seq<Byte>, data: seq<Byte>, i: nat)
    requires Fits(|p|, |data|) && LsbsClear(p, HeaderLen + 8 * |data|) && i < |data|
    ensures PayloadByte(Embedded(p, data), i) == data[i]
  {
    PayloadBitsRoundTrip(p, data, i);
    PayloadByteFromBits(Embedded(p, data), i, data[i]);
  }

  /** On a carrier whose bits 0 start clear over the whole window
      (32 + 8 * |data| bytes), decoding returns the payload. */
  lemma {:induction false} RoundTrip(p: seq<Byte>, data: seq<Byte>)
    requires Fits(|p|, |data|) && LsbsClear(p, HeaderLen + 8 * |data|)
    ensures Extracted(Embedded(p, data)) == Ok(data)
  {
    var q := Embedded(p, data);
    HeaderRoundTrip(p, data);
    forall i | 0 <= i < |data|
      ensures PayloadByte(q, i) == data[i]
    {
      PayloadByteRoundTrip(p, data, i);
    }
    assert seq(|data|, i requires 0 <= i < |data| => PayloadByte(q, i)) == data;
  }

  /** The OR policy is lossy: when bit 0 of carrier byte 0 is already set,
      the decoded length is odd, so an even-length payload never comes back. */
  lemma {:induction false} SetLsbCorruptsLength(p: seq<Byte>, data: seq<Byte>)
    requires Fits(|p|, |data|) && Lsb(p[0]) == 1
    ensures PayloadSize(Embedded(p, data)) % 2 == 1
    ensures |data| % 2 == 0 ==> Extracted(Embedded(p, data)) != Ok(data)
  {
    var q := Embedded(p, data);
    EmbedOnlySetsLsb(p, data, 0);
    PayloadSizeBit(q, 0);
  }

  /** The worked example: a payload of one byte 0x01 in 40 zero bytes sets
      bit 0 of byte 0 (length 1) and of byte 32 (the payload's bit 0) only,
      and decodes back to [0x01]. */
  lemma SingleByteExample()
    ensures var p := seq(40, _ => 0 as Byte);
      && Embedded(p, [1]) == seq(40, i => if i == 0 || i == 32 then 1 as Byte else 0)
      && Extracted(Embedded(p, [1])) == Ok([1])
  {
    var p := seq(40, _ => 0 as Byte);
    var q := Embedded(p, [1]);
    forall i | 0 <= i < 40
      ensures q[i] == if i == 0 || i == 32 then 1 as Byte else 0
    {
      if i < HeaderLen {
        if i > 0 {
          assert Shr(1, i) == Shr(0, i - 1);
          ShrZero(i - 1);
        }
      } else {
        BitsOfByte([1], 0, i - HeaderLen);
      }
    }
    RoundTrip(p, [1]);
  }
}
