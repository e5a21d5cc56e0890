/** Big-endian byte packing (pkg/util/tunutils/byteutils.go), on integers with explicit ranges.

    A shift or mask of the Go code is written as a division, remainder or sum. */
module Bytes {

  type byte = b: int | 0 <= b < 0x100
  type uint16 = v: int | 0 <= v < 0x1_0000

  function BytesToUint16(bytes: seq<byte>, offset: nat): (r: uint16)
    requires offset + 1 < |bytes|
  {
    var high: int := bytes[offset];
    high * 0x100 + bytes[offset + 1]
  }

  function Uint16ToBytes(value: uint16): (r: seq<byte>)
    ensures |r| == 2 && BytesToUint16(r, 0) == value
  {
    [value / 0x100, value % 0x100]
  }

  /** Two bytes are determined by the number they spell. */
  lemma Uint16ToBytesInverse(bytes: seq<byte>, offset: nat)
    requires offset + 1 < |bytes|
    ensures Uint16ToBytes(BytesToUint16(bytes, offset)) == bytes[offset..offset + 2]
  {
  }

  /** The high byte comes first. */
  lemma HighByteFirst(high: byte, low: byte)
    ensures BytesToUint16([high, low], 0) == 256 * high + low
    ensures Uint16ToBytes(0x1234) == [0x12, 0x34]
  {
  }
}
