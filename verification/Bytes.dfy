/** Bytes, little-endian words and the length-limited frame that both ABI writers append to. */
module Bytes {

  type byte = x: int | 0 <= x < 0x100

  /** kValueAbiMaximumFrameBytes */
  const MAX_FRAME_BYTES: nat := 16 * 1024 * 1024

  const TWO_TO_THE_32: nat := 0x1_0000_0000
  const TWO_TO_THE_64: nat := 0x1_0000_0000_0000_0000

  /** The four bytes of the low 32 bits of n, least significant first. */
  function U32(n: nat): (b: seq<byte>)
    ensures |b| == 4
  {
    [n % 0x100, n / 0x100 % 0x100, n / 0x1_0000 % 0x100, n / 0x100_0000 % 0x100]
  }

  function ReadU32(b: seq<byte>): (n: nat)
    requires |b| == 4
    ensures n < TWO_TO_THE_32
  {
    b[0] as int + 0x100 * b[1] as int + 0x1_0000 * b[2] as int + 0x100_0000 * b[3] as int
  }

  /** The eight bytes of the low 64 bits of n, least significant first. */
  function U64(n: nat): (b: seq<byte>)
    ensures |b| == 8
  {
    U32(n % TWO_TO_THE_32) + U32(n / TWO_TO_THE_32)
  }

  function ReadU64(b: seq<byte>): (n: nat)
    requires |b| == 8
    ensures n < TWO_TO_THE_64
  {
    ReadU32(b[..4]) + TWO_TO_THE_32 * ReadU32(b[4..])
  }

  lemma ReadU32Inverts(n: nat)
    requires n < TWO_TO_THE_32
    ensures ReadU32(U32(n)) == n
  {
    var a, b, c := n / 0x100, n / 0x1_0000, n / 0x100_0000;
    assert b == a / 0x100 && c == b / 0x100;
    assert n == 0x100 * a + n % 0x100;
    assert a == 0x100 * b + a % 0x100;
    assert b == 0x100 * c + b % 0x100;
  }

  lemma ReadU64Inverts(n: nat)
    requires n < TWO_TO_THE_64
    ensures ReadU64(U64(n)) == n
  {
    var low, high := n % TWO_TO_THE_32, n / TWO_TO_THE_32;
    assert high < TWO_TO_THE_32;
    ReadU32Inverts(low);
    ReadU32Inverts(high);
    assert U64(n)[..4] == U32(low) && U64(n)[4..] == U32(high);
  }

  /**
   * The growing `bytes_` vector of a writer. Every append is refused, without effect, once it
   * would take the frame past MAX_FRAME_BYTES.
   */
  class Frame {
    var bytes: seq<byte>

    constructor ()
      ensures bytes == []
    {
      bytes := [];
    }

    method Append(data: seq<byte>) returns (ok: bool)
      requires |bytes| <= MAX_FRAME_BYTES
      modifies this
      ensures |bytes| <= MAX_FRAME_BYTES
      ensures ok <==> |old(bytes)| + |data| <= MAX_FRAME_BYTES
      ensures bytes == if ok then old(bytes) + data else old(bytes)
    {
      if |data| > MAX_FRAME_BYTES - |bytes| {
        return false;
      }
      bytes := bytes + data;
      return true;
    }

    method PutByte(value: byte) returns (ok: bool)
      requires |bytes| <= MAX_FRAME_BYTES
      modifies this
      ensures |bytes| <= MAX_FRAME_BYTES
      ensures ok <==> |old(bytes)| < MAX_FRAME_BYTES
      ensures bytes == if ok then old(bytes) + [value] else old(bytes)
    {
      if |bytes| == MAX_FRAME_BYTES {
        return false;
      }
      bytes := bytes + [value];
      return true;
    }

    /** A length that does not fit 32 bits is refused before anything is written. */
    method PutU32(value: nat) returns (ok: bool)
      requires |bytes| <= MAX_FRAME_BYTES
      modifies this
      ensures |bytes| <= MAX_FRAME_BYTES
      ensures ok <==> value < TWO_TO_THE_32 && |old(bytes)| + 4 <= MAX_FRAME_BYTES
      ensures bytes == if ok then old(bytes) + U32(value) else old(bytes)
    {
      if value >= TWO_TO_THE_32 {
        return false;
      }
      ok := Append(U32(value));
    }

    /** Overwrites a length that was written as a placeholder. */
    method PatchU32(offset: nat, value: nat)
      requires offset + 4 <= |bytes| <= MAX_FRAME_BYTES && value < TWO_TO_THE_32
      modifies this
      ensures bytes == old(bytes)[..offset] + U32(value) + old(bytes)[offset + 4..]
    {
      var index := 0;
      while index < 4
        invariant 0 <= index <= 4 && |bytes| == |old(bytes)|
        invariant bytes[..offset] == old(bytes)[..offset]
        invariant forall k | 0 <= k < index :: bytes[offset + k] == U32(value)[k]
        invariant bytes[offset + 4..] == old(bytes)[offset + 4..]
      {
        bytes := bytes[offset + index := U32(value)[index]];
        index := index + 1;
      }
      assert bytes == bytes[..offset] + bytes[offset..offset + 4] + bytes[offset + 4..];
      assert bytes[offset..offset + 4] == U32(value);
    }
  }
}
