/** Embedding a payload into a decoded image's pixel bytes, in place. */
module Encoder {
  import opened Bits
  import opened Results
  import opened BitStream
  import opened Carrier

  /** Checks that `data` fits, then ORs its 32-bit length into bit 0 of
      `pixels[0..32]` and its bits, taken from a `BitReader`, into bit 0 of
      `pixels[32..]`. A refused encode leaves `pixels` untouched. */
  method Encode(pixels: array<Byte>, data: seq<Byte>) returns (r: Result<(), EncodeError>)
    modifies pixels
    ensures r == Err(OversizedPayload) <==> |data| >= LengthLimit
    ensures r == Err(InsufficientCapacity) <==> |data| < LengthLimit && pixels.Length < |data| * 8 + HeaderLen
    ensures r.Ok? <==> Fits(pixels.Length, |data|)
    ensures r.Ok? ==> pixels[..] == Embedded(old(pixels[..]), data)
    ensures r.Err? ==> pixels[..] == old(pixels[..])
  {
    if |data| >= LengthLimit {
      return Err(OversizedPayload);
    }
    var bitsToEncode := new BitReader(data);
    if pixels.Length < |data| * 8 + HeaderLen {
      return Err(InsufficientCapacity);
    }
    WriteLength(pixels, |data|);
    WritePayload(pixels, bitsToEncode);
    return Ok(());
  }

  /** The length field: `pixel_bytes[k] |= ((data.len() >> k) & 1) as u8`
      for each of the 32 header bytes. */
  method WriteLength(pixels: array<Byte>, len: nat)
    requires HeaderLen <= pixels.Length
    modifies pixels
    ensures pixels[..] == OrInto(old(pixels[..]), 0, UintBits(len, HeaderLen))
  {
    ghost var header := UintBits(len, HeaderLen);
    for k := 0 to HeaderLen
      invariant forall j :: 0 <= j < pixels.Length ==>
        pixels[j] == if j < k then old(pixels[j]) | header[j] else old(pixels[j])
    {
      var bit := UintBit(len, k);
      assert bit == header[k];
      pixels[k] := pixels[k] | bit;
    }
    assert pixels[..] == OrInto(old(pixels[..]), 0, header);
  }

  /** The payload: `bits_to_encode.zip(pixel_bytes[32..].iter_mut())` ORs
      each bit the reader yields into the next byte from 32 on, stopping as
      soon as the reader yields `None` or the pixels run out. */
  method WritePayload(pixels: array<Byte>, bitsToEncode: BitReader)
    requires bitsToEncode.Valid() && bitsToEncode.Consumed() == 0
    requires Fits(pixels.Length, |bitsToEncode.bytes|)
    modifies pixels, bitsToEncode
    ensures pixels[..] == OrInto(old(pixels[..]), HeaderLen, BitsOf(bitsToEncode.bytes))
    ensures bitsToEncode.Valid() && bitsToEncode.Remaining() == 0
  {
    ghost var bits := BitsOf(bitsToEncode.bytes);
    var i := HeaderLen;
    while i < pixels.Length
      invariant HeaderLen <= i <= pixels.Length && i - HeaderLen <= |bits|
      invariant bitsToEncode.Valid() && bits == BitsOf(bitsToEncode.bytes)
      invariant bitsToEncode.Consumed() == i - HeaderLen
      invariant forall j :: 0 <= j < pixels.Length ==>
        pixels[j] == if HeaderLen <= j < i then old(pixels[j]) | bits[j - HeaderLen] else old(pixels[j])
    {
      var bit := bitsToEncode.Next();
      if bit.None? {
        break;
      }
      assert bit.value == bits[i - HeaderLen];
      pixels[i] := pixels[i] | bit.value;
      i := i + 1;
    }
    assert pixels[..] == OrInto(old(pixels[..]), HeaderLen, bits);
  }
}
