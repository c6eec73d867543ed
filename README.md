# stegano: LSB bit packing, modelled in Dafny

`stegano` hides a byte payload in the pixel bytes of an image. Encoding
writes the payload length as a 32-bit unsigned integer, least significant bit
first, into bit 0 of the first 32 pixel bytes. It then writes the payload's
bits, each byte least significant bit first, into bit 0 of the pixel bytes
from index 32 on. Decoding reads the length back, checks that the image is
large enough, and reassembles the payload.

This project models the part of `src/main.rs` that does the bit packing:

- `BitStream`: the `BitReader` iterator. It is a class whose cursor fields
  `byteIdx` and `bitIdx` are updated in place by `Next`.
- `Encoder`: the buffer logic of `encode`. It works in place on the pixel
  bytes, given as an `array<Byte>`. Its panics become `EncodeError` results.
- `Decoder`: the buffer logic of `decode`. It reads the pixel bytes and fills
  a fresh zeroed array, as `vec![0; size]` does. Its panics become
  `DecodeError` results.
- `Carrier`: the format as functions and lemmas.
  - `Embedded` is the carrier after an encode.
  - `Extracted` is what a decode yields.
  - The lemmas relate the two: what an encode changes, what a decode reads,
    and when the round trip holds.
- `Bits`: shared bit arithmetic.
  - A `u8` is a `bv8`, written `Byte`.
  - A `usize` is an unbounded `nat`. `n >> k` on a `usize` is `Shr(n, k)`,
    and `x << i` is `x * Pow2(i)`.
  - The `u8` `+=` of the decoder is `AddU8`. Its precondition is the
    overflow check that Rust performs in debug builds.

The encoder ORs bits into the carrier; it does not assign them. The model
keeps that. So a pixel whose bit 0 is already 1 keeps it, whatever the bit
written there. The round trip is therefore proved for carriers whose bit 0
is clear over the bytes that are written (`RoundTrip`). `SetLsbCorruptsLength`
shows that the length is corrupted when bit 0 of byte 0 starts set.

## Model

| member | source | states |
|---|---|---|
| BitStream.BitReader.constructor | src/main.rs:16-22 | A new reader is over the given bytes, has yielded nothing and has `8 * len` bits to go. |
| BitStream.BitReader.Next | src/main.rs:28-43 | If bits remain, the reader yields bit `j` of the stream, where `j` counts the bits already yielded, and advances by one. Once exhausted, it yields `None` and its cursor does not move. Every yielded value is 0 or 1, and the cursor invariant is kept. |
| BitStream.BitOf | src/main.rs:34 | Each stream bit is `(bytes[j / 8] >> (j % 8)) & 1`, and its value is 0 or 1. |
| BitStream.BitsOf | src/main.rs:28-43 | Everything a fresh reader yields: `8 * len` values, each 0 or 1. |
| BitStream.BitsOfByte | src/main.rs:34-40 | Stream bit `8i + k` is bit `k` of byte `i`, so each byte runs from bit 0 to bit 7. |
| Encoder.Encode | src/main.rs:49-77 | Three outcomes, each stated as an if-and-only-if. It refuses a length of `0xFFFF_FFFF` or more. It refuses a carrier shorter than `8 * len + 32`, and succeeds when the carrier is exactly that long. Otherwise it succeeds. On success the pixels become `Embedded(old pixels, data)`. On failure they are untouched. |
| Encoder.WriteLength | src/main.rs:68-72 | Bit `k` of the length is ORed into pixel byte `k` for `k < 32`; all other bytes are kept. |
| Encoder.WritePayload | src/main.rs:74-77 | The reader's bits are ORed into pixel bytes from 32 on, in stream order. The loop stops when the reader is exhausted, and all other bytes are kept. The reader ends exhausted, with its cursor invariant kept. |
| Decoder.Decode | src/main.rs:98-120 | The result is exactly `Extracted(pixels)`. Its properties are stated by `Carrier.ExtractedOutcome`. |
| Decoder.GatherByte | src/main.rs:115-117 | Eight `u8` additions of `(pixel & 1) << k` into a zeroed entry build payload byte `i`. None overflows, and no other entry changes. |
| Bits.Shr | src/main.rs:70 | `n >> k` on a `usize` is at most `n`, and is 0 when `n < 2^k`. |
| Bits.Lsb | src/main.rs:116 | `b & 1` is 0 or 1. |
| Bits.ByteBit | src/main.rs:34 | `(b >> k) & 1` for `k < 8` is 0 or 1. |
| Bits.BitValue | src/main.rs:105 | `(b as usize) & 1` is 0 or 1, and is 1 exactly when bit 0 of `b` is set. |
| Bits.UintBit | src/main.rs:70 | `((n >> k) & 1) as u8` is 0 or 1. |
| Bits.UintBits | src/main.rs:69-72 | The 32 header bits written for a length: `m` values, each 0 or 1. |
| Bits.FromBits | src/main.rs:103-106 | The sum of `(p[i] & 1) << i` over the first `n` bytes is below `2^n`. |
| Bits.PackBits | src/main.rs:114-118 | The byte built from the first `n` of eight `+=` steps is below `2^n`: `r >> n == 0`. |
| Bits.AddU8 | src/main.rs:116 | A `u8` addition without overflow is at least each operand. |
| Bits.PackBitsStep | src/main.rs:116 | Each addition the decoder makes stays within `u8`, and it extends the packed byte by one bit. |
| Bits.PackBitsBit | src/main.rs:114-118 | Bit `k` of a packed byte is bit 0 of carrier byte `from + k`. |
| Bits.PackByteBits | src/main.rs:114-118 | Packing eight carrier bytes whose bits 0 are the bits of `b` gives `b` back. |
| Bits.FromBitsBit | src/main.rs:103-106 | Bit `k` of the summed length is bit 0 of carrier byte `k`. |
| Bits.FromUintBits | src/main.rs:69-72 | Writing the low `m` bits of `n < 2^m` and summing them back gives `n`. |
| Bits.OrIntoClearLsb | src/main.rs:76 | ORing a bit into a byte whose bit 0 is clear makes bit 0 that bit. |
| Carrier.Fits | src/main.rs:49-66 | The two checks of `encode`. A payload that passes them has a length below `2^32`, and the carrier holds the 32 header bytes. |
| Carrier.OrInto | src/main.rs:69-77 | ORing bits into a window of bytes keeps the length and never clears a bit that was set. |
| Carrier.Embedded | src/main.rs:69-77 | The carrier after `encode`'s two OR loops has the same length as before. Its byte-level properties are the `Embed...` lemmas below. |
| Carrier.Extracted | src/main.rs:98-120 | What `decode` yields. On success the carrier holds the 32 header bytes, and the result has `PayloadSize(p)` bytes. The error cases and the bit layout are in `ExtractedOutcome`. |
| Carrier.PayloadByte | src/main.rs:114-118 | `decoded_data[i]` after its eight `+=` steps: bit `k` of it is bit 0 of carrier byte `32 + 8i + k`, for each `k < 8`. |
| Carrier.PayloadSize | src/main.rs:103-106 | The decoded length is below `2^32`. |
| Carrier.EmbedOnlySetsLsb | src/main.rs:69-77 | Encoding leaves bits 1 to 7 of every byte unchanged. A bit 0 that was set stays set. |
| Carrier.EmbedKeepsTail | src/main.rs:74-77 | Bytes at or beyond `32 + 8 * len` are unchanged. |
| Carrier.EmbedHeaderLsb | src/main.rs:69-72 | Bit 0 of header byte `k` becomes its old value OR bit `k` of the length. |
| Carrier.EmbedPayloadLsb | src/main.rs:75-76 | Bit 0 of byte `32 + j` becomes its old value OR stream bit `j`. |
| Carrier.EmbedEmpty | src/main.rs:69-77 | An empty payload leaves the carrier exactly as it was. |
| Carrier.PayloadSizeBit | src/main.rs:103-106 | Bit `k` of the decoded length is bit 0 of carrier byte `k`. |
| Carrier.PayloadByteBit | src/main.rs:114-118 | Bit `k` of decoded byte `i` is bit 0 of carrier byte `32 + 8i + k`. |
| Carrier.PayloadByteFromBits | src/main.rs:114-118 | A decoded byte whose eight source bits 0 are the bits of `b` is `b`. |
| Carrier.ExtractedOutcome | src/main.rs:98-120 | A decode fails on a carrier shorter than 32 bytes. It fails on one shorter than `32 + 8 * size`. Otherwise it yields `size < 2^32` bytes. Bit `k` of byte `i` is bit 0 of carrier byte `32 + 8i + k`. The two failure cases are stated both ways. |
| Carrier.HeaderRoundTrip | src/main.rs:103-106 | The length read back equals the length written, when the 32 header bits start clear. |
| Carrier.PayloadBitsRoundTrip | src/main.rs:114-118 | When the window starts clear, bit 0 of carrier byte `32 + 8i + k` after encoding is bit `k` of payload byte `i`. |
| Carrier.PayloadByteRoundTrip | src/main.rs:114-118 | When the window starts clear, payload byte `i` is read back unchanged. |
| Carrier.RoundTrip | src/main.rs:98-120 | Decoding an encoded carrier returns the payload, when bit 0 is clear over the `32 + 8 * len` bytes written. |
| Carrier.SetLsbCorruptsLength | src/main.rs:71 | If bit 0 of byte 0 starts set, the decoded length is odd, so no even-length payload comes back. |
| Carrier.SingleByteExample | src/main.rs:69-77 | Encoding `[0x01]` into 40 zero bytes sets bit 0 of bytes 0 and 32 only, and decodes back to `[0x01]`. |

## Left out

- Image I/O: opening, decoding and saving PNG files, and the image's dimensions and colour type, are not modelled. The model takes and returns the pixel bytes.
- `main`: argument handling and file reading and writing are not modelled.
- Panics: each `panic!` of `encode` and `decode` becomes an error result. The buffer is unchanged when the error is returned.
- Width of `usize`: lengths are unbounded naturals. On a 32-bit target, `data.len() * 8 + 32` and `32 + size * 8` could wrap; that is not modelled.
- Order of `zip`: the Rust `zip` calls the reader before it checks the pixels. `WritePayload` checks the pixels first. The two can differ only in whether the reader is asked once more after the last pixel. That would be a call that yields `None`, and the reader is dropped right after, so the pixels are the same.
- `Decode`: the pixel bytes are read-only there, so they are taken as a sequence rather than a vector.
- Decoder.Decode: its contract does not repeat the properties of its result. It names the result `Extracted(pixels)`, and `Carrier.ExtractedOutcome` states them.
- Carrier.Embedded: its own contract states only that the length is kept. What it does to each byte is stated by `EmbedOnlySetsLsb`, `EmbedKeepsTail`, `EmbedHeaderLsb` and `EmbedPayloadLsb`.
- Carrier.Extracted: its own contract states only the length of a successful result. The error cases and the bit layout are stated by `ExtractedOutcome`.
