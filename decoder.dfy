/** Recovering a payload from a decoded image's pixel bytes. */
module Decoder {
  import opened Bits
  import opened Results
  import opened Carrier

  /** Reads the 32-bit length from bit 0 of `pixels[0..32]`, checks that the
      carrier holds that many payload bytes, and gathers each payload byte
      from bit 0 of eight successive carrier bytes. */
  method Decode(pixels: seq<Byte>) returns (r: Result<seq<Byte>, DecodeError>)
    ensures r == Extracted(pixels)
  {
    if |pixels| < HeaderLen {
      return Err(TruncatedHeader);
    }

    // `size += ((pixel_bytes[i] as usize) & 1) << i`
    var size: nat := 0;
    for i := 0 to HeaderLen
      invariant size == FromBits(pixels, i)
    {
      size := size + BitValue(pixels[i]) * Pow2(i);
    }

    if |pixels| < HeaderLen + size * 8 {
      return Err(TruncatedPayload);
    }

    var decoded := new Byte[size](_ => 0);
    for i := 0 to size
      invariant forall j :: 0 <= j < i ==> decoded[j] == PayloadByte(pixels, j)
      invariant forall j :: i <= j < size ==> decoded[j] == 0
    {
      GatherByte(pixels, decoded, i);
    }
    assert decoded[..] == seq(size, i requires 0 <= i < size => PayloadByte(pixels, i));
    return Ok(decoded[..]);
  }

  /** Payload byte `i`, built in place on a zeroed entry:
      `decoded_data[i] += (pixel_bytes[i*8 + k + 32] & 1) << k` for `k < 8`.
      No addition overflows, and no other entry changes. */
  method GatherByte(pixels: seq<Byte>, decoded: array<Byte>, i: nat)
    requires i < decoded.Length && HeaderLen + 8 * i + 8 <= |pixels| && decoded[i] == 0
    modifies decoded
    ensures decoded[i] == PayloadByte(pixels, i)
    ensures forall j :: 0 <= j < decoded.Length && j != i ==> decoded[j] == old(decoded[j])
  {
    for k := 0 to 8
      invariant decoded[i] == PackBits(pixels, HeaderLen + 8 * i, k)
      invariant forall j :: 0 <= j < decoded.Length && j != i ==> decoded[j] == old(decoded[j])
    {
      PackBitsStep(pixels, HeaderLen + 8 * i, k, decoded[i]);
      decoded[i] := AddU8(decoded[i], Lsb(pixels[i * 8 + k + HeaderLen]) << k);
    }
  }
}
