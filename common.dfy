/** Shared value types used by every module of the model. */
module Common {

  /** A C pointer that may be NULL: `None` plays the part of NULL. */
  datatype Option<+T> = None | Some(value: T)

  /** An unsigned byte (`uint8_t`, `u_char`) as it appears in memory or on the wire. */
  newtype Byte = x: int | 0 <= x < 256

  /**
   * A 16-bit field stored in network byte order, as `ntohs`/`htons`
   * turns it into a host value.
   */
  function NetU16(frame: seq<Byte>, off: nat): nat
    requires off + 2 <= |frame|
  {
    frame[off] as nat * 0x100 + frame[off + 1] as nat
  }

  /** A 32-bit field stored in network byte order, as `ntohl`/`htonl` turns it into a host value. */
  function NetU32(frame: seq<Byte>, off: nat): nat
    requires off + 4 <= |frame|
  {
    NetU16(frame, off) * 0x1_0000 + NetU16(frame, off + 2)
  }

  /**
   * A `uint32_t` loaded from four bytes with no byte-order conversion, on
   * a little-endian host.
   */
  function HostU32(frame: seq<Byte>, off: nat): nat
    requires off + 4 <= |frame|
  {
    frame[off] as nat + frame[off + 1] as nat * 0x100 + frame[off + 2] as nat * 0x1_0000 + frame[off + 3] as nat * 0x100_0000
  }
}
