/** Bytes and the little-endian fields the on-disk structures are made of. */
module Bytes {
  import opened Common

  type byte = x: int | 0 <= x < 256

  function ReadLe16(buffer: seq<byte>, offset: nat): (value: nat)
    requires offset + 2 <= |buffer|
    ensures value < 0x1_0000
  {
    buffer[offset] as int + 256 * (buffer[offset + 1] as int)
  }

  function ReadLe32(buffer: seq<byte>, offset: nat): (value: nat)
    requires offset + 4 <= |buffer|
    ensures value < 0x1_0000_0000
  {
    buffer[offset] as int + 0x100 * (buffer[offset + 1] as int)
    + 0x1_0000 * (buffer[offset + 2] as int) + 0x100_0000 * (buffer[offset + 3] as int)
  }

  /** The buffer with the low 16 bits of a value stored at an offset. */
  function WriteLe16(buffer: seq<byte>, offset: nat, value: nat): (result: seq<byte>)
    requires offset + 2 <= |buffer|
    ensures |result| == |buffer|
  {
    buffer[offset := value % 256][offset + 1 := value / 256 % 256]
  }

  /** The buffer with the low 32 bits of a value stored at an offset. */
  function WriteLe32(buffer: seq<byte>, offset: nat, value: nat): (result: seq<byte>)
    requires offset + 4 <= |buffer|
    ensures |result| == |buffer|
  {
    buffer[offset := value % 256]
    [offset + 1 := value / 0x100 % 256]
    [offset + 2 := value / 0x1_0000 % 256]
    [offset + 3 := value / 0x100_0000 % 256]
  }

  /** Two bytes, and four, the lower one first. */
  ghost function Two(buffer: seq<byte>, at: nat): nat
    requires at + 2 <= |buffer|
  {
    buffer[at] as int + 256 * (buffer[at + 1] as int)
  }

  ghost function Four(buffer: seq<byte>, at: nat): nat
    requires at + 4 <= |buffer|
  {
    Two(buffer, at) + 65536 * Two(buffer, at + 2)
  }

  /** Storing a 16-bit value and loading it again gives the value back and leaves the other bytes alone. */
  lemma Le16RoundTrip(buffer: seq<byte>, offset: nat, value: nat)
    requires offset + 2 <= |buffer| && value < 0x1_0000
    ensures ReadLe16(WriteLe16(buffer, offset, value), offset) == value
    ensures forall k :: 0 <= k < |buffer| && !(offset <= k < offset + 2) ==>
              WriteLe16(buffer, offset, value)[k] == buffer[k]
  {
  }

  lemma Le32RoundTrip(buffer: seq<byte>, offset: nat, value: nat)
    requires offset + 4 <= |buffer| && value < 0x1_0000_0000
    ensures ReadLe32(WriteLe32(buffer, offset, value), offset) == value
    ensures forall k :: 0 <= k < |buffer| && !(offset <= k < offset + 4) ==>
              WriteLe32(buffer, offset, value)[k] == buffer[k]
  {
    FourBytes(value);
  }

  /** The buffer with data copied over it from an offset on. */
  function Splice(buffer: seq<byte>, offset: nat, data: seq<byte>): (result: seq<byte>)
    requires offset + |data| <= |buffer|
    ensures |result| == |buffer|
    ensures forall k :: 0 <= k < |buffer| ==>
              result[k] == if offset <= k < offset + |data| then data[k - offset] else buffer[k]
  {
    buffer[..offset] + data + buffer[offset + |data|..]
  }
}
