/** Bytes and the little-endian integer encoding that .NET's BinaryReader reads. */
module Bytes {

  newtype byte = b: int | 0 <= b < 256

  const TwoTo31: int := 0x8000_0000
  const TwoTo32: int := 0x1_0000_0000

  /** The unsigned value of four bytes in little-endian order. */
  function UInt32Le(b: seq<byte>): (r: int)
    requires |b| == 4
    ensures 0 <= r < TwoTo32
  {
    b[0] as int + 0x100 * b[1] as int + 0x1_0000 * b[2] as int + 0x100_0000 * b[3] as int
  }

  /** BinaryReader.ReadInt32: four little-endian bytes read as a two's-complement int32. */
  function Int32Le(b: seq<byte>): (r: int)
    requires |b| == 4
    ensures -TwoTo31 <= r < TwoTo31
    ensures r >= 0 <==> b[3] < 0x80
  {
    var u := UInt32Le(b);
    if u < TwoTo31 then u else u - TwoTo32
  }

  /** BinaryWriter.Write(int) for a non-negative int32: the four little-endian bytes. */
  function EncodeInt32(n: int): (r: seq<byte>)
    requires 0 <= n < TwoTo31
    ensures |r| == 4 && r[3] < 0x80
  {
    [(n % 0x100) as byte, (n / 0x100 % 0x100) as byte,
     (n / 0x1_0000 % 0x100) as byte, (n / 0x100_0000) as byte]
  }

  /** Reading back what was written gives the written length back. */
  lemma Int32RoundTrip(n: int)
    requires 0 <= n < TwoTo31
    ensures Int32Le(EncodeInt32(n)) == n
  {
    var b := EncodeInt32(n);
    assert n == n % 0x100 + 0x100 * (n / 0x100);
    assert n / 0x100 == n / 0x100 % 0x100 + 0x100 * (n / 0x1_0000);
    assert n / 0x1_0000 == n / 0x1_0000 % 0x100 + 0x100 * (n / 0x100_0000);
  }

  /** The unsigned value of bytes in little-endian order. */
  function UIntLe(b: seq<byte>): (r: nat)
    decreases |b|
  {
    if b == [] then 0 else b[0] as int + 0x100 * UIntLe(b[1..])
  }

  /** BinaryReader.ReadInt64: eight little-endian bytes read as a two's-complement int64. */
  function Int64Le(b: seq<byte>): int
    requires |b| == 8
  {
    var u := UIntLe(b);
    if u < 0x8000_0000_0000_0000 then u else u - 0x1_0000_0000_0000_0000
  }

  /** Encoding.ASCII.GetString: bytes above 0x7F decode as '?'. */
  function AsciiString(b: seq<byte>): (r: string)
    ensures |r| == |b|
    ensures forall i :: 0 <= i < |b| && b[i] < 0x80 ==> r[i] as int == b[i] as int
  {
    seq(|b|, i requires 0 <= i < |b| => if b[i] < 0x80 then b[i] as char else '?')
  }
}
