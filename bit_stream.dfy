/** The bit iterator used by the encoder: the bits of a byte slice, each
    byte's least significant bit first. */
module BitStream {
  import opened Bits
  import opened Results

  /** Bit `j` of the stream over `bytes`: bit `j % 8` of byte `j / 8`. */
  function BitOf(bytes: seq<Byte>, j: nat): (r: Byte)
    requires j < 8 * |bytes|
    ensures r == 0 || r == 1
  {
    ByteBit(bytes[j / 8], j % 8)
  }

  /** Every bit of `bytes`, in the order a fresh reader yields them. */
  function BitsOf(bytes: seq<Byte>): (r: seq<Byte>)
    ensures |r| == 8 * |bytes|
    ensures forall j :: 0 <= j < |r| ==> r[j] == 0 || r[j] == 1
  {
    seq(8 * |bytes|, j requires 0 <= j < 8 * |bytes| => BitOf(bytes, j))
  }

  /** Within each byte the stream runs from bit 0 to bit 7. */
  lemma BitsOfByte(bytes: seq<Byte>, i: nat, k: nat)
    requires i < |bytes| && k < 8
    ensures 8 * i + k < 8 * |bytes| && BitOf(bytes, 8 * i + k) == ByteBit(bytes[i], k)
    ensures BitsOf(bytes)[8 * i + k] == ByteBit(bytes[i], k)
  {
    assert (8 * i + k) / 8 == i && (8 * i + k) % 8 == k;
  }

  /** A cursor over a borrowed byte slice: `byteIdx` is the byte being read
      and `bitIdx` the next bit of it. */
  class BitReader {
    const bytes: seq<Byte>
    var byteIdx: nat
    var bitIdx: nat

    ghost predicate Valid()
      reads this
    {
      && bitIdx < 8
      && byteIdx <= |bytes|
      && (byteIdx == |bytes| ==> bitIdx == 0)
    }

    /** How many bits have been yielded so far. */
    ghost function Consumed(): nat
      reads this
    {
      8 * byteIdx + bitIdx
    }

    /** How many bits remain before the reader yields `None`. */
    ghost function Remaining(): nat
      reads this
      requires Valid()
    {
      8 * |bytes| - Consumed()
    }

    constructor (bytes: seq<Byte>)
      ensures Valid() && this.bytes == bytes
      ensures Consumed() == 0 && Remaining() == 8 * |bytes|
    {
      this.bytes := bytes;
      byteIdx := 0;
      bitIdx := 0;
    }

    /** Yields the next bit, or `None` once all `8 * |bytes|` bits are out;
        an exhausted reader stays exhausted. */
    method Next() returns (r: Option<Byte>)
      requires Valid()
      modifies this
      ensures Valid()
      ensures old(Remaining()) > 0 ==>
        && r == Some(BitOf(bytes, old(Consumed())))
        && Consumed() == old(Consumed()) + 1
      ensures old(Remaining()) == 0 ==>
        r == None && byteIdx == old(byteIdx) && bitIdx == old(bitIdx)
      ensures r.Some? ==> r.value == 0 || r.value == 1
    {
      if byteIdx >= |bytes| {
        return None;
      }
      var cur := (bytes[byteIdx] >> bitIdx) & 1;
      if bitIdx == 7 {
        byteIdx := byteIdx + 1;
      }
      bitIdx := (bitIdx + 1) % 8;
      return Some(cur);
    }
  }
}
