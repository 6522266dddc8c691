/** Bytes and the 16-bit big-endian (network order) integers of the erlxc wire format. */
module Bytes {

  type byte = b: int | 0 <= b < 256

  /** sizeof(buf) in erlxc_loop: the frame buffer holds UINT16_MAX bytes. */
  const BufSize: nat := 65535

  /** sizeof(buf) in erlxc_write: UINT16_MAX - 4 bytes of encoded term at most. */
  const MaxPayload: nat := 65531

  /** The value of two bytes read in network order (ntohs over the raw bytes, get_int16). */
  function Be16Value(hi: byte, lo: byte): (n: nat)
    ensures n <= BufSize
  {
    hi * 256 + lo
  }

  /** The two bytes htons puts on the wire for a 16-bit value. */
  function Be16(n: nat): (r: seq<byte>)
    requires n <= BufSize
    ensures |r| == 2 && Be16Value(r[0], r[1]) == n
  {
    [n / 256, n % 256]
  }

  /** Reading a length back and writing it again gives the same two bytes. */
  lemma Be16OfValue(hi: byte, lo: byte)
    ensures Be16(Be16Value(hi, lo)) == [hi, lo]
  {
    var n := Be16Value(hi, lo);
    assert n / 256 == hi && n % 256 == lo;
  }
}
